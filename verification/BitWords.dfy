/** 32-bit words as numbers, the bitwise operations on them, and the tricks that search a bin map: a mark in
    a map is a bit of a number, and the least one to the left of a bin is found by masking. */
module BitWords {
  import opened BinIndex

  /** Bit i of word m. */
  predicate Bit(m: nat, i: nat) {
    if i == 0 then m % 2 == 1 else Bit(m / 2, i - 1)
  }

  function Or(a: nat, b: nat): nat {
    if a == 0 then b else 2 * Or(a / 2, b / 2) + if a % 2 == 1 || b % 2 == 1 then 1 else 0
  }

  function And(a: nat, b: nat): nat {
    if a == 0 then 0 else 2 * And(a / 2, b / 2) + if a % 2 == 1 && b % 2 == 1 then 1 else 0
  }

  function Not(a: nat): nat
    requires a < WORD
  {
    WORD - 1 - a
  }

  /** Unsigned negation. */
  function Neg(a: nat): nat
    requires a < WORD
  {
    if a == 0 then 0 else WORD - a
  }

  function ShiftLeft(a: nat, n: nat): nat {
    (a * Pow2(n)) % WORD
  }

  function Quotient(a: nat, d: nat): nat
    requires 0 < d
  {
    a / d
  }

  function ShiftRight(a: nat, n: nat): nat {
    Quotient(a, Pow2(n))
  }

  function Idx2Bit(i: nat): (b: nat)
    requires i < 32
    ensures 0 < b < WORD
  {
    Pow2Below(i);
    Pow2(i)
  }

  lemma Pow2Below(i: nat)
    requires i < 32
    ensures Pow2(i) < WORD
  {
    Pow2Of32();
    Pow2Mono(i, 31);
  }

  /** Isolates the least set bit. */
  function LeastBit(x: nat): nat
    requires x < WORD
  {
    And(x, Neg(x))
  }

  /** All bits to the left of the least bit of x. */
  function LeftBits(x: nat): nat {
    Or(ShiftLeft(x, 1), Neg(ShiftLeft(x, 1)))
  }

  /** The position of the lowest set bit, as the scan instruction finds it. */
  function BitScan(x: nat): nat
    requires 0 < x
  {
    if x % 2 == 1 then 0 else 1 + BitScan(x / 2)
  }

  lemma {:induction false} ZeroBits(i: nat)
    ensures !Bit(0, i)
  {
    if i != 0 {
      ZeroBits(i - 1);
    }
  }

  lemma {:induction false} OrBits(a: nat, b: nat, i: nat)
    ensures Bit(Or(a, b), i) <==> Bit(a, i) || Bit(b, i)
  {
    if a == 0 {
      ZeroBits(i);
    } else if i != 0 {
      OrBits(a / 2, b / 2, i - 1);
    }
  }

  lemma {:induction false} AndBits(a: nat, b: nat, i: nat)
    ensures Bit(And(a, b), i) <==> Bit(a, i) && Bit(b, i)
  {
    if a == 0 {
      ZeroBits(i);
    } else if i != 0 {
      AndBits(a / 2, b / 2, i - 1);
    }
  }

  lemma {:induction false} ComplementBits(a: nat, n: nat, i: nat)
    requires a < Pow2(n) && i < n
    ensures Bit(Pow2(n) - 1 - a, i) <==> !Bit(a, i)
  {
    if i != 0 {
      ComplementBits(a / 2, n - 1, i - 1);
      assert (Pow2(n) - 1 - a) / 2 == Pow2(n - 1) - 1 - a / 2;
    }
  }

  lemma {:induction false} PowerBits(i: nat, j: nat)
    ensures Bit(Pow2(i), j) <==> i == j
  {
    if j == 0 {
    } else if i == 0 {
      ZeroBits(j - 1);
    } else {
      PowerBits(i - 1, j - 1);
    }
  }

  lemma {:induction false} HighBits(n: nat, k: nat, j: nat)
    requires k <= n && Pow2(k) <= Pow2(n)
    ensures Bit(Pow2(n) - Pow2(k), j) <==> k <= j < n
  {
    if k == n {
      ZeroBits(j);
    } else if k == 0 {
      AllOnes(n, j);
    } else {
      Pow2Mono(k - 1, n - 1);
      assert (Pow2(n) - Pow2(k)) / 2 == Pow2(n - 1) - Pow2(k - 1);
      if j != 0 {
        HighBits(n - 1, k - 1, j - 1);
      }
    }
  }

  lemma {:induction false} AllOnes(n: nat, j: nat)
    ensures Bit(Pow2(n) - 1, j) <==> j < n
  {
    if n == 0 {
      ZeroBits(j);
    } else if j != 0 {
      AllOnes(n - 1, j - 1);
      assert (Pow2(n) - 1) / 2 == Pow2(n - 1) - 1;
    }
  }

  lemma {:induction false} BelowBits(m: nat, n: nat, j: nat)
    requires m < Pow2(n) && n <= j
    ensures !Bit(m, j)
  {
    if n == 0 {
      ZeroBits(j);
    } else {
      BelowBits(m / 2, n - 1, j - 1);
    }
  }

  lemma {:induction false} OrBelow(a: nat, b: nat, n: nat)
    requires a < Pow2(n) && b < Pow2(n)
    ensures Or(a, b) < Pow2(n)
  {
    if a != 0 {
      OrBelow(a / 2, b / 2, n - 1);
    }
  }

  lemma {:induction false} AndBelow(a: nat, b: nat)
    ensures And(a, b) <= a
  {
    if a != 0 {
      AndBelow(a / 2, b / 2);
    }
  }

  /** Marking and clearing a bin in a map changes its own bit only. */
  lemma MarkClear(m: nat, i: nat, j: nat)
    requires m < WORD && i < 32 && j < 32
    ensures Or(m, Idx2Bit(i)) < WORD && (Bit(Or(m, Idx2Bit(i)), j) <==> i == j || Bit(m, j))
    ensures And(m, Not(Idx2Bit(i))) < WORD && (Bit(And(m, Not(Idx2Bit(i))), j) <==> i != j && Bit(m, j))
  {
    Pow2Of32();
    OrBelow(m, Idx2Bit(i), 32);
    AndBelow(m, Not(Idx2Bit(i)));
    OrBits(m, Idx2Bit(i), j);
    AndBits(m, Not(Idx2Bit(i)), j);
    ComplementBits(Idx2Bit(i), 32, j);
    PowerBits(i, j);
  }

  /** Masking a map with the bits to the left of bin idx leaves the marked bins above idx. */
  lemma LeftOf(m: nat, idx: nat, j: nat)
    requires m < WORD && idx < 32 && j < 32
    ensures LeftBits(Idx2Bit(idx)) < WORD
    ensures Bit(And(LeftBits(Idx2Bit(idx)), m), j) <==> idx < j && Bit(m, j)
  {
    LeftBitsBits(idx, j);
    AndBits(LeftBits(Idx2Bit(idx)), m, j);
  }

  lemma ShiftOne(idx: nat)
    requires idx < 32
    ensures ShiftLeft(Idx2Bit(idx), 1) == if idx == 31 then 0 else Pow2(idx + 1)
  {
    Pow2Of32();
    assert Pow2(1) == 2 && Pow2(idx + 1) == 2 * Pow2(idx);
    if idx < 31 {
      Pow2Mono(idx + 1, 31);
    }
  }

  lemma LeftBitsBits(idx: nat, j: nat)
    requires idx < 32 && j < 32
    ensures LeftBits(Idx2Bit(idx)) < WORD
    ensures Bit(LeftBits(Idx2Bit(idx)), j) <==> idx < j
  {
    Pow2Of32();
    ShiftOne(idx);
    var y := ShiftLeft(Idx2Bit(idx), 1);
    OrBelow(y, Neg(y), 32);
    OrBits(y, Neg(y), j);
    if idx == 31 {
      ZeroBits(j);
    } else {
      Pow2Mono(idx + 1, 31);
      PowerBits(idx + 1, j);
      HighBits(32, idx + 1, j);
    }
  }

  lemma {:induction false} LowestBit(x: nat)
    requires 0 < x
    ensures Bit(x, BitScan(x))
    ensures forall j :: 0 <= j < BitScan(x) ==> !Bit(x, j)
  {
    if x % 2 == 0 {
      LowestBit(x / 2);
      forall j | 0 <= j < BitScan(x)
        ensures !Bit(x, j)
      {
        if j != 0 {
          assert !Bit(x / 2, j - 1);
        }
      }
    }
  }

  lemma {:induction false} DisjointFromComplement(a: nat, n: nat)
    requires a < Pow2(n)
    ensures And(a, Pow2(n) - 1 - a) == 0
  {
    if a != 0 {
      DisjointFromComplement(a / 2, n - 1);
      assert (Pow2(n) - 1 - a) / 2 == Pow2(n - 1) - 1 - a / 2;
    }
  }

  lemma {:induction false} LeastBitIs(x: nat, n: nat)
    requires 0 < x < Pow2(n)
    ensures And(x, Pow2(n) - x) == Pow2(BitScan(x))
  {
    if x % 2 == 0 {
      LeastBitIs(x / 2, n - 1);
    } else {
      DisjointFromComplement(x / 2, n - 1);
      assert (Pow2(n) - x) / 2 == Pow2(n - 1) - 1 - x / 2;
    }
  }

  lemma {:induction false} ScanOfPower(i: nat)
    ensures BitScan(Pow2(i)) == i
  {
    if i != 0 {
      ScanOfPower(i - 1);
    }
  }

  lemma BitBelow(m: nat, i: nat)
    requires m < WORD && Bit(m, i)
    ensures i < 32
  {
    Pow2Of32();
    if 32 <= i {
      BelowBits(m, 32, i);
    }
  }

  /** The index of the least bit of a map is the number of the first marked bin. */
  lemma FirstMarked(m: nat)
    requires 0 < m < WORD
    ensures 0 < LeastBit(m) && var i := BitScan(LeastBit(m));
      i < 32 && Bit(m, i) && forall j :: 0 <= j < i ==> !Bit(m, j)
  {
    Pow2Of32();
    LeastBitIs(m, 32);
    ScanOfPower(BitScan(m));
    LowestBit(m);
    BitBelow(m, BitScan(m));
  }

  /** A map is zero exactly when no bin is marked. */
  lemma NoneMarked(m: nat)
    requires m < WORD
    ensures m == 0 <==> forall j :: 0 <= j < 32 ==> !Bit(m, j)
  {
    if m == 0 {
      forall j | 0 <= j < 32
        ensures !Bit(m, j)
      {
        ZeroBits(j);
      }
    } else {
      FirstMarked(m);
      var i := BitScan(LeastBit(m));
      assert exists j :: 0 <= j < 32 && Bit(m, j) by {
        assert 0 <= i < 32 && Bit(m, i);
      }
    }
  }

  /** Testing a bin's bit in a map by masking. */
  lemma {:induction false} MaskedBit(m: nat, i: nat)
    requires i < 32
    ensures And(m, Idx2Bit(i)) != 0 <==> Bit(m, i)
  {
    if i == 0 {
      AndZero(m / 2);
    } else if m == 0 {
      ZeroBits(i);
    } else {
      MaskedBit(m / 2, i - 1);
    }
  }

  lemma {:induction false} AndZero(m: nat)
    ensures And(m, 0) == 0
  {
    if m != 0 {
      AndZero(m / 2);
    }
  }

  /** Masking and then scanning gives the next marked bin above idx, if there is one. */
  lemma NextMarked(m: nat, idx: nat)
    requires m < WORD && idx < 32
    ensures LeftBits(Idx2Bit(idx)) < WORD
    ensures var left := And(LeftBits(Idx2Bit(idx)), m);
      && left < WORD
      && (left == 0 ==> forall j :: idx < j < 32 ==> !Bit(m, j))
      && (left != 0 ==> 0 < LeastBit(left) && NextAbove(m, idx, BitScan(LeastBit(left))))
  {
    var left := And(LeftBits(Idx2Bit(idx)), m);
    LeftBitsBits(idx, 0);
    AndBelow(LeftBits(Idx2Bit(idx)), m);
    forall j | 0 <= j < 32
      ensures Bit(left, j) <==> idx < j && Bit(m, j)
    {
      LeftOf(m, idx, j);
    }
    FirstOfMasked(m, idx, left);
  }

  predicate NextAbove(m: nat, idx: nat, i: nat) {
    idx < i < 32 && Bit(m, i) && forall j :: idx < j < i ==> !Bit(m, j)
  }

  lemma FirstOfMasked(m: nat, idx: nat, left: nat)
    requires left < WORD && idx < 32
    requires forall j :: 0 <= j < 32 ==> (Bit(left, j) <==> idx < j && Bit(m, j))
    ensures left == 0 ==> forall j :: idx < j < 32 ==> !Bit(m, j)
    ensures left != 0 ==> 0 < LeastBit(left) && NextAbove(m, idx, BitScan(LeastBit(left)))
  {
    NoneMarked(left);
    if left == 0 {
      forall j | idx < j < 32
        ensures !Bit(m, j)
      {
        assert !Bit(left, j);
      }
    } else {
      FirstMarked(left);
      var i := BitScan(LeastBit(left));
      forall j | idx < j < i
        ensures !Bit(m, j)
      {
        assert !Bit(left, j);
      }
    }
  }

  lemma HalveThenDivide(m: nat, p: nat)
    requires 0 < p
    ensures m / (2 * p) == (m / 2) / p
  {
    var q := (m / 2) / p;
    assert q * p <= m / 2 < q * p + p;
    assert q * (2 * p) == 2 * (q * p);
    QuotientIs(m, 2 * p, q);
  }

  lemma QuotientIs(m: nat, d: nat, q: nat)
    requires 0 < d && q * d <= m < q * d + d
    ensures m / d == q
  {
    var k := m / d;
    assert k * d <= m < k * d + d;
    if k < q {
      MulMono(k + 1, q, d);
    } else if q < k {
      MulMono(q + 1, k, d);
    }
  }

  lemma {:induction false} ShiftedRight(m: nat, n: nat, j: nat)
    ensures Bit(ShiftRight(m, n), j) <==> Bit(m, n + j)
  {
    if n != 0 {
      HalveThenDivide(m, Pow2(n - 1));
      ShiftedRight(m / 2, n - 1, j);
    }
  }

  lemma {:induction false} TimesPower(x: nat, n: nat, j: nat)
    ensures Bit(x * Pow2(n), j) <==> n <= j && Bit(x, j - n)
  {
    if n != 0 {
      assert x * Pow2(n) == 2 * (x * Pow2(n - 1));
      if j != 0 {
        TimesPower(x, n - 1, j - 1);
      }
    }
  }

  /** Shifting down and up again clears the bits below n. */
  lemma ShiftedBack(m: nat, n: nat, j: nat)
    requires m < WORD
    ensures Bit(ShiftLeft(ShiftRight(m, n), n), j) <==> n <= j && Bit(m, j)
    ensures ShiftRight(m, n) <= m && ShiftLeft(ShiftRight(m, n), n) < WORD
  {
    var x := ShiftRight(m, n);
    QuotientBelow(m, Pow2(n));
    Unwrapped(x * Pow2(n));
    TimesPower(x, n, j);
    if n <= j {
      ShiftedRight(m, n, j - n);
    }
  }

  lemma QuotientBelow(m: nat, p: nat)
    requires 0 < p
    ensures (m / p) * p <= m && m / p <= m
  {
    var q := m / p;
    assert q * p <= m;
    MulMono(1, p, q);
  }

  lemma Unwrapped(x: nat)
    requires x < WORD
    ensures x % WORD == x
  {}

  /** Testing the two lowest bits by masking. */
  lemma LowTwoBits(x: nat)
    ensures And(x, 3) != 0 <==> Bit(x, 0) || Bit(x, 1)
  {
    if x != 0 {
      AndOne(x / 2);
    }
  }

  lemma AndOne(x: nat)
    ensures And(x, 1) != 0 <==> x % 2 == 1
  {
    if x != 0 {
      AndZero(x / 2);
    }
  }

  /** A map shifted down to bin idx says which of the bins from there on are marked. */
  lemma MarkedFrom(m: nat, idx: nat)
    requires m < WORD && idx < 32
    ensures ShiftRight(m, idx) == 0 <==> forall j :: idx <= j < 32 ==> !Bit(m, j)
    ensures And(ShiftRight(m, idx), 3) != 0 <==> Bit(m, idx) || Bit(m, idx + 1)
    ensures ShiftRight(m, idx) % 2 == 1 <==> Bit(m, idx)
  {
    var x := ShiftRight(m, idx);
    LowTwoBits(x);
    ShiftedRight(m, idx, 0);
    ShiftedRight(m, idx, 1);
    ShiftedToZero(m, idx, x);
  }

  lemma ShiftedToZero(m: nat, idx: nat, x: nat)
    requires m < WORD && idx < 32 && x == ShiftRight(m, idx)
    ensures x == 0 <==> forall j :: idx <= j < 32 ==> !Bit(m, j)
  {
    QuotientBelow(m, Pow2(idx));
    NoneMarked(x);
    if x == 0 {
      forall j | idx <= j < 32
        ensures !Bit(m, j)
      {
        ShiftedRight(m, idx, j - idx);
        ZeroBits(j - idx);
      }
    } else {
      var j :| 0 <= j < 32 && Bit(x, j);
      ShiftedRight(m, idx, j);
      BitBelow(m, idx + j);
      assert idx <= idx + j < 32 && Bit(m, idx + j);
    }
  }

  /** The next marked bin above idx, from the map shifted down and up again. */
  lemma NextFrom(m: nat, idx: nat) returns (left: nat)
    requires m < WORD && idx < 32
    ensures left == And(ShiftLeft(ShiftRight(m, idx), idx), LeftBits(Idx2Bit(idx))) && left < WORD
    ensures left == 0 ==> forall j :: idx < j < 32 ==> !Bit(m, j)
    ensures left != 0 ==> 0 < LeastBit(left) && NextAbove(m, idx, BitScan(LeastBit(left)))
  {
    var y := ShiftLeft(ShiftRight(m, idx), idx);
    left := And(y, LeftBits(Idx2Bit(idx)));
    ShiftedBack(m, idx, 0);
    AndBelow(y, LeftBits(Idx2Bit(idx)));
    forall j | 0 <= j < 32
      ensures Bit(left, j) <==> idx < j && Bit(m, j)
    {
      ShiftedBack(m, idx, j);
      LeftBitsBits(idx, j);
      AndBits(y, LeftBits(Idx2Bit(idx)), j);
    }
    FirstOfMasked(m, idx, left);
  }
}

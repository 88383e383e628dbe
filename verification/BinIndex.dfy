/** Size classes of the allocator: which bin a chunk size belongs to, and the range of sizes of a bin. */
module BinIndex {

  /** One more than the largest size_t. */
  const WORD: nat := 0x1_0000_0000
  const NTREEBINS: nat := 32
  const NSMALLBINS: nat := 32
  const MIN_CHUNK_SIZE: nat := 16
  const MIN_LARGE_SIZE: nat := 256

  function Pow2(n: nat): (p: nat)
    ensures 0 < p
  {
    if n == 0 then 1 else 2 * Pow2(n - 1)
  }

  lemma {:induction false} Pow2Add(m: nat, n: nat)
    ensures Pow2(m + n) == Pow2(m) * Pow2(n)
  {
    if m != 0 {
      Pow2Add(m - 1, n);
      calc {
        Pow2(m + n);
        2 * (Pow2(m - 1) * Pow2(n));
        (2 * Pow2(m - 1)) * Pow2(n);
      }
    }
  }

  lemma {:induction false} Pow2Mono(m: nat, n: nat)
    requires m <= n
    ensures Pow2(m) <= Pow2(n)
  {
    if m < n {
      Pow2Mono(m, n - 1);
    }
  }

  /** The position of the highest set bit, as the scan instruction finds it. */
  function Log2(x: nat): nat
    requires 0 < x
  {
    if x == 1 then 0 else 1 + Log2(x / 2)
  }

  lemma {:induction false} Log2Bounds(x: nat)
    requires 0 < x
    ensures Pow2(Log2(x)) <= x < 2 * Pow2(Log2(x))
  {
    if x != 1 {
      Log2Bounds(x / 2);
    }
  }

  lemma {:induction false} Log2Below(x: nat, n: nat)
    requires 0 < x < Pow2(n)
    ensures Log2(x) < n
  {
    Log2Bounds(x);
    if n <= Log2(x) {
      Pow2Mono(n, Log2(x));
    }
  }

  /** The tree bin of a chunk of size s. */
  function TreeIndex(s: nat): nat {
    var x := s / MIN_LARGE_SIZE;
    if x == 0 then 0
    else if 0xFFFF < x then NTREEBINS - 1
    else
      var k := Log2(x);
      2 * k + (s / Pow2(k + 7)) % 2
  }

  /** The smallest size held in tree bin i. */
  function MinSize(i: nat): nat {
    Pow2(i / 2 + 8) + if i % 2 == 0 then 0 else Pow2(i / 2 + 7)
  }

  /** The bins start at 256 and 384, and two bins further on the sizes are twice as large. */
  lemma MinSizeDoubles(i: nat)
    ensures MinSize(0) == 256 && MinSize(1) == 384 && MinSize(i + 2) == 2 * MinSize(i)
  {
    assert Pow2(8) == 256;
    assert (i + 2) / 2 == i / 2 + 1;
  }

  /** Size s falls between the lower bounds of its bin and of the next; the last bin has no upper bound. */
  lemma TreeIndexBounds(s: nat)
    requires MIN_LARGE_SIZE <= s
    ensures TreeIndex(s) < NTREEBINS
    ensures MinSize(TreeIndex(s)) <= s
    ensures TreeIndex(s) < NTREEBINS - 1 ==> s < MinSize(TreeIndex(s) + 1)
  {
    if 0xFFFF < s / MIN_LARGE_SIZE {
      MinSizeOfLast();
    } else {
      var k, b := ScannedSize(s);
      MinSizeOfScan(k, b, TreeIndex(s));
    }
  }

  /** Below the last bin, the scanned bit and the one after it are the two leading bits of the size. */
  lemma ScannedSize(s: nat) returns (k: nat, b: nat)
    requires MIN_LARGE_SIZE <= s && s / MIN_LARGE_SIZE <= 0xFFFF
    ensures k <= 15 && b <= 1 && TreeIndex(s) == 2 * k + b
    ensures if b == 0 then Pow2(k + 8) <= s < Pow2(k + 8) + Pow2(k + 7)
            else Pow2(k + 8) + Pow2(k + 7) <= s < Pow2(k + 9)
  {
    var x := s / MIN_LARGE_SIZE;
    k := Log2(x);
    Log2Bounds(x);
    Pow2Of16();
    Log2Below(x, 16);
    ScaledBounds(s, k);
    DivBounds(s, Pow2(k + 7));
    b := s / Pow2(k + 7) - 2;
    LowBit(b);
  }

  lemma ScaledBounds(s: nat, k: nat)
    requires Pow2(k) <= s / MIN_LARGE_SIZE < 2 * Pow2(k)
    ensures Pow2(k + 8) == 2 * Pow2(k + 7) && Pow2(k + 9) == 2 * Pow2(k + 8)
    ensures Pow2(k + 8) <= s < Pow2(k + 9)
  {
    Pow2Add(k, 8);
    assert Pow2(8) == MIN_LARGE_SIZE;
    assert Pow2(k + 9) == 2 * Pow2(k + 8) && Pow2(k + 8) == 2 * Pow2(k + 7);
  }

  lemma LowBit(b: nat)
    requires b <= 1
    ensures (b + 2) % 2 == b
  {}

  lemma MinSizeOfScan(k: nat, b: nat, i: nat)
    requires b <= 1 && i == 2 * k + b
    ensures MinSize(i) == Pow2(k + 8) + if b == 0 then 0 else Pow2(k + 7)
    ensures MinSize(i + 1) == Pow2(k + 8) + if b == 0 then Pow2(k + 7) else Pow2(k + 8)
  {
    assert Pow2(k + 9) == 2 * Pow2(k + 8);
    if b == 0 {
      assert i / 2 == k && (i + 1) / 2 == k;
    } else {
      assert i / 2 == k && (i + 1) / 2 == k + 1;
    }
  }

  lemma Pow2Of16()
    ensures Pow2(16) == 0x10000
  {
    assert Pow2(8) == 256;
    Pow2Add(8, 8);
  }

  lemma MinSizeOfLast()
    ensures MinSize(NTREEBINS - 1) == 0xC00000
  {
    Pow2Of16();
    assert Pow2(22) == 0x400000;
  }

  lemma DivBounds(s: nat, p: nat)
    requires 0 < p && 2 * p <= s < 4 * p
    ensures s / p == 2 || s / p == 3
    ensures s / p == 2 <==> s < 3 * p
  {
    var q := s / p;
    assert q * p <= s < q * p + p;
    if q < 2 {
      MulMono(q, 1, p);
    } else if 4 <= q {
      MulMono(4, q, p);
    }
  }

  lemma MulMono(a: nat, b: nat, p: nat)
    requires a <= b
    ensures a * p <= b * p
  {}

  lemma MinSizeStep(i: nat)
    ensures MinSize(i) < MinSize(i + 1)
  {
    assert Pow2(i / 2 + 8) == 2 * Pow2(i / 2 + 7);
    if i % 2 == 1 {
      assert (i + 1) / 2 == i / 2 + 1;
      assert Pow2(i / 2 + 9) == 2 * Pow2(i / 2 + 8);
    }
  }

  lemma {:induction false} MinSizeMono(i: nat, j: nat)
    requires i <= j
    ensures MinSize(i) <= MinSize(j)
  {
    if i < j {
      MinSizeMono(i, j - 1);
      MinSizeStep(j - 1);
    }
  }

  /** The two bounds leave no choice of bin. */
  lemma TreeIndexUnique(s: nat, i: nat)
    requires MIN_LARGE_SIZE <= s && i < NTREEBINS
    requires MinSize(i) <= s && (i < NTREEBINS - 1 ==> s < MinSize(i + 1))
    ensures TreeIndex(s) == i
  {
    TreeIndexBounds(s);
    var j := TreeIndex(s);
    if i < j {
      MinSizeMono(i + 1, j);
    } else if j < i {
      MinSizeMono(j + 1, i);
    }
  }

  lemma TreeIndexMono(s: nat, t: nat)
    requires MIN_LARGE_SIZE <= s <= t
    ensures TreeIndex(s) <= TreeIndex(t)
  {
    TreeIndexBounds(s);
    TreeIndexBounds(t);
    if TreeIndex(t) < TreeIndex(s) {
      MinSizeMono(TreeIndex(t) + 1, TreeIndex(s));
    }
  }

  /** The trie of bin i resolves BinBits(i) bits, starting from size BinLow(i). */
  function BinBits(i: nat): nat
    requires i < NTREEBINS
  {
    if i == NTREEBINS - 1 then 32 else i / 2 + 7
  }

  function BinLow(i: nat): nat
    requires i < NTREEBINS
  {
    if i == NTREEBINS - 1 then 0 else MinSize(i)
  }

  lemma BinRange(s: nat)
    requires MIN_LARGE_SIZE <= s < WORD
    ensures TreeIndex(s) < NTREEBINS
    ensures BinLow(TreeIndex(s)) <= s < BinLow(TreeIndex(s)) + Pow2(BinBits(TreeIndex(s)))
  {
    TreeIndexBounds(s);
    var i := TreeIndex(s);
    if i == NTREEBINS - 1 {
      Pow2Of32();
    } else {
      RangeOfBin(i, s);
    }
  }

  lemma RangeOfBin(i: nat, s: nat)
    requires i < NTREEBINS - 1 && MinSize(i) <= s < MinSize(i + 1)
    ensures BinLow(i) <= s < BinLow(i) + Pow2(BinBits(i))
  {
    assert Pow2(i / 2 + 8) == 2 * Pow2(i / 2 + 7);
    if i % 2 == 1 {
      assert (i + 1) / 2 == i / 2 + 1;
      assert Pow2((i + 1) / 2 + 8) == 2 * Pow2(i / 2 + 8);
    }
  }

  lemma Pow2Of32()
    ensures Pow2(32) == WORD && Pow2(31) == 0x8000_0000
  {
    Pow2Of16();
    Pow2Add(16, 16);
    assert Pow2(32) == 2 * Pow2(31);
  }

  /** The shift that brings the highest undetermined bit of a size in bin i to the sign position. */
  function LeftShift(i: nat): nat
    requires i < NTREEBINS
  {
    if i == NTREEBINS - 1 then 0 else 31 - (i / 2 + 6)
  }

  /** The undetermined bits of size s below a node that covers sizes low .. low + 2^bits, moved up to
      the sign bit. */
  ghost predicate Shifted(word: nat, s: nat, low: nat, bits: nat) {
    && low <= s < low + Pow2(bits) && bits <= 32
    && word == (s - low) * Pow2(32 - bits)
  }

  /** The word steers a walk for size s from such a node: its sign bit tells the half that s is in, and
      shifted by one it steers the rest of the walk. */
  ghost predicate Steers(word: nat, s: nat, low: nat, bits: nat)
    decreases bits
  {
    && low <= s < low + Pow2(bits) && word < WORD
    && (0 < bits ==>
          && word / 0x8000_0000 == (if s < low + Pow2(bits - 1) then 0 else 1)
          && Steers((2 * word) % WORD, s, if s < low + Pow2(bits - 1) then low else low + Pow2(bits - 1), bits - 1))
  }

  lemma {:induction false} ShiftedSteers(word: nat, s: nat, low: nat, bits: nat)
    requires Shifted(word, s, low, bits)
    ensures Steers(word, s, low, bits)
    decreases bits
  {
    if 0 < bits {
      ShiftedDown(word, s, low, bits);
      ShiftedSteers((2 * word) % WORD, s, if s < low + Pow2(bits - 1) then low else low + Pow2(bits - 1), bits - 1);
    } else {
      assert Pow2(0) == 1 && s == low;
      assert word == 0;
    }
  }

  /** `s << leftshift` steers the walk from the root of the bin of s. */
  lemma SteersFromRoot(s: nat)
    requires MIN_LARGE_SIZE <= s < WORD
    ensures TreeIndex(s) < NTREEBINS
    ensures Steers((s * Pow2(LeftShift(TreeIndex(s)))) % WORD, s, BinLow(TreeIndex(s)), BinBits(TreeIndex(s)))
  {
    BinRange(s);
    ShiftedFromBin(s, TreeIndex(s));
    ShiftedSteers((s * Pow2(LeftShift(TreeIndex(s)))) % WORD, s, BinLow(TreeIndex(s)), BinBits(TreeIndex(s)));
  }

  lemma ShiftedFromBin(s: nat, i: nat)
    requires i < NTREEBINS && BinLow(i) <= s < BinLow(i) + Pow2(BinBits(i)) && s < WORD
    ensures Shifted((s * Pow2(LeftShift(i))) % WORD, s, BinLow(i), BinBits(i))
  {
    Pow2Of32();
    if i < NTREEBINS - 1 {
      var h, p := Pow2(BinBits(i)), Pow2(32 - BinBits(i));
      Pow2Add(BinBits(i), 32 - BinBits(i));
      BinLowIsMultiple(i);
      WrapShift(s, BinLow(i), if i % 2 == 0 then 2 else 3, h, p);
      assert LeftShift(i) == 32 - BinBits(i);
    } else {
      Modulo(s);
    }
  }

  lemma Modulo(s: nat)
    requires s < WORD
    ensures (s * 1) % WORD == s
  {}

  lemma BinLowIsMultiple(i: nat)
    requires i < NTREEBINS - 1
    ensures BinLow(i) == (if i % 2 == 0 then 2 else 3) * Pow2(BinBits(i))
  {
    assert Pow2(i / 2 + 8) == 2 * Pow2(i / 2 + 7);
  }

  lemma WrapShift(s: nat, low: nat, c: nat, h: nat, p: nat)
    requires h * p == WORD && low == c * h && low <= s < low + h && 0 < p
    ensures (s * p) % WORD == (s - low) * p
  {
    LowShiftedOut(s - low, c, h, p);
    BelowShift(s - low, h, p);
  }

  lemma LowShiftedOut(d: nat, c: nat, h: nat, p: nat)
    requires h * p == WORD
    ensures (d + c * h) * p == d * p + c * WORD
  {
    assert (d + c * h) * p == d * p + (c * h) * p;
    assert (c * h) * p == c * (h * p);
  }

  lemma BelowShift(d: nat, h: nat, p: nat)
    requires h * p == WORD && d < h && 0 < p
    ensures d * p < WORD
  {
    assert d * p <= (h - 1) * p == h * p - p;
  }

  lemma ShiftedDown(word: nat, s: nat, low: nat, bits: nat)
    requires Shifted(word, s, low, bits) && 0 < bits
    ensures word < WORD
    ensures word / 0x8000_0000 == if s < low + Pow2(bits - 1) then 0 else 1
    ensures Shifted((2 * word) % WORD, s, if s < low + Pow2(bits - 1) then low else low + Pow2(bits - 1), bits - 1)
  {
    Pow2Of32();
    var half, p := Pow2(bits - 1), Pow2(32 - bits);
    Pow2Add(bits - 1, 32 - bits);
    assert Pow2(32 - (bits - 1)) == 2 * p;
    SignBit(s - low, half, p);
  }

  lemma SignBit(d: nat, half: nat, p: nat)
    requires half * p == 0x8000_0000 && d < 2 * half && 0 < p
    ensures d * p < WORD
    ensures (d * p) / 0x8000_0000 == if d < half then 0 else 1
    ensures (2 * (d * p)) % WORD == (if d < half then d else d - half) * (2 * p)
  {
    var e := if d < half then d else d - half;
    MulLess(e, half, p);
    assert e * p == if d < half then d * p else d * p - half * p;
    assert (e * p) * 2 == e * (2 * p);
  }

  lemma MulLess(d: nat, h: nat, p: nat)
    requires d < h && 0 < p
    ensures d * p < h * p
  {
    assert d * p <= (h - 1) * p == h * p - p;
  }
}

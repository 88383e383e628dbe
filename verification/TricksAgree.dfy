/** The branch-free index computations compute the same as the formulas on numbers. A word stands for the
    number that its bits make up, which is what converting it gives. */
module TricksAgree {
  import BinIndex
  import BinTricks
  import BitWords

  /** The number that the bits of a word stand for. */
  function Value(m: bv32): nat
    decreases m
  {
    if m == 0 then 0 else 2 * Value(m >> 1) + Low(m)
  }

  function Low(m: bv32): (b: nat)
    ensures b < 2
  {
    if m & 1 == 1 then 1 else 0
  }

  lemma Doubled(x: bv32)
    requires x < 0x8000_0000
    ensures (x << 1) as nat == 2 * (x as nat) && ((x << 1) | 1) as nat == 2 * (x as nat) + 1
  {}

  /** A word is its bits but the lowest, shifted up, and the lowest. */
  lemma Split(m: bv32)
    ensures m >> 1 < 0x8000_0000 && m == if m & 1 == 1 then ((m >> 1) << 1) | 1 else (m >> 1) << 1
    ensures m >> 1 <= m && (m != 0 ==> m >> 1 < m)
  {}

  lemma OddIs(m: bv32, h: bv32)
    requires h < 0x8000_0000 && m == (h << 1) | 1 && Value(h) == h as nat
    ensures m as nat == 2 * Value(h) + 1
  {
    Doubled(h);
  }

  lemma EvenIs(m: bv32, h: bv32)
    requires h < 0x8000_0000 && m == h << 1 && Value(h) == h as nat
    ensures m as nat == 2 * Value(h)
  {
    Doubled(h);
  }

  /** Word m is h with one more bit at the low end. */
  predicate IsHalf(h: bv32, m: bv32) {
    && h < 0x8000_0000 && m == (if m & 1 == 1 then (h << 1) | 1 else h << 1)
    && h <= m && (m != 0 ==> h < m) && Value(m) == 2 * Value(h) + Low(m)
  }

  lemma HasHalf(m: bv32)
    ensures exists h :: IsHalf(h, m)
  {
    Split(m);
    assert IsHalf(m >> 1, m);
  }

  lemma {:induction false} ValueIs(m: bv32)
    ensures Value(m) == m as nat
    decreases m
  {
    if m != 0 {
      HasHalf(m);
      var h :| IsHalf(h, m);
      ValueIs(h);
      if m & 1 == 1 {
        OddIs(m, h);
      } else {
        EvenIs(m, h);
      }
    }
  }

  lemma HalfOfNext(x: bv32)
    requires x < 0xFFFF_FFFF
    ensures if x & 1 == 1 then (x + 1) >> 1 == (x >> 1) + 1 && (x + 1) & 1 == 0
            else (x + 1) >> 1 == x >> 1 && (x + 1) & 1 == 1
  {}

  lemma HalfIsSmall(x: bv32)
    requires x < 32
    ensures x >> 1 < 16 && (x & 1 == 1 ==> x >> 1 < x)
  {}

  lemma {:induction false} Successor(x: bv32)
    requires x < 32
    ensures Value(x + 1) == Value(x) + 1
    decreases x
  {
    HalfOfNext(x);
    HalfIsSmall(x);
    if x & 1 == 1 {
      Successor(x >> 1);
    }
  }

  lemma ShiftOnce(s: bv32, n: bv32)
    requires 0 < n < 32
    ensures s >> n == (s >> 1) >> (n - 1)
  {}

  lemma HalvePower(v: nat, n: nat)
    ensures v / BinIndex.Pow2(n + 1) == (v / 2) / BinIndex.Pow2(n)
  {
    BitWords.HalveThenDivide(v, BinIndex.Pow2(n));
  }

  lemma LowestAgrees(m: bv32)
    ensures BinTricks.BitAt(m, 0) <==> Value(m) % 2 == 1
    ensures Value(m >> 1) == Value(m) / 2
  {}

  lemma DownStep(s: bv32, n: bv32, v: nat, k: nat)
    requires 0 < n < 32 && v == Value(s) && k == Value(n - 1)
    requires Value((s >> 1) >> (n - 1)) == Value(s >> 1) / BinIndex.Pow2(k)
    ensures Value(s >> n) == v / BinIndex.Pow2(k + 1)
  {
    ShiftOnce(s, n);
    LowestAgrees(s);
    HalvePower(v, k);
  }

  lemma NotShifted(s: bv32)
    ensures Value(s >> 0) == Value(s) / BinIndex.Pow2(0)
  {}

  /** Shifting down divides by a power of two. */
  lemma {:induction false} ShiftedDown(s: bv32, n: bv32)
    requires n < 32
    ensures Value(s >> n) == Value(s) / BinIndex.Pow2(Value(n))
    decreases n
  {
    if n == 0 {
      NotShifted(s);
    } else {
      ShiftedDown(s >> 1, n - 1);
      Successor(n - 1);
      DownStep(s, n, Value(s), Value(n - 1));
    }
  }

  lemma SmallSum(k: bv32, b: bv32)
    requires k < 16
    ensures ((k << 1) + (b & 1)) >> 1 == k && ((k << 1) + (b & 1)) & 1 == b & 1
  {}

  lemma {:induction false} ScanIs(x: nat, k: nat)
    requires x / BinIndex.Pow2(k) == 1
    ensures 0 < x && BinIndex.Log2(x) == k
  {
    if k != 0 {
      BitWords.HalveThenDivide(x, BinIndex.Pow2(k - 1));
      ScanIs(x / 2, k - 1);
    }
  }

  lemma {:induction false} ZeroValue(m: bv32)
    ensures Value(m) == 0 <==> m == 0
    decreases m
  {
    if m != 0 {
      HasHalf(m);
      var h :| IsHalf(h, m);
      ZeroValue(h);
    }
  }

  lemma SmallWords()
    ensures Value(1) == 1 && Value(8) == 8 && Value(16) == 16 && Value(31) == 31
  {
    assert Value(2) == 2 && Value(4) == 4 && Value(3) == 3 && Value(7) == 7 && Value(15) == 15;
  }

  /** The first byte and a half of a size: whether anything is left when it is shifted down. */
  lemma Above(x: bv32)
    ensures 0xFFFF < x <==> 0xFFFF < Value(x)
  {
    SmallWords();
    BinIndex.Pow2Of16();
    ShiftedDown(x, 16);
    ZeroValue(x >> 16);
    NothingAbove(x);
  }

  lemma NothingAbove(x: bv32)
    ensures 0xFFFF < x <==> x >> 16 != 0
  {}

  lemma SevenMore(k: bv32)
    requires k < 16
    ensures Value(k + 7) == Value(k) + 7
  {
    Successor(k);
    Successor(k + 1);
    Successor(k + 2);
    Successor(k + 3);
    Successor(k + 4);
    Successor(k + 5);
    Successor(k + 6);
  }

  lemma SumValue(k: bv32, b: bv32)
    requires k < 16
    ensures Value((k << 1) + (b & 1)) == 2 * Value(k) + Value(b) % 2
  {
    SmallSum(k, b);
  }

  lemma ByteDown(s: bv32, x: bv32)
    requires x == s >> 8
    ensures Value(x) == Value(s) / 256
  {
    SmallWords();
    ShiftedDown(s, 8);
    assert BinIndex.Pow2(8) == 256;
  }

  lemma ScanValue(x: bv32, k: bv32)
    requires k < 16 && x >> k == 1
    ensures 0 < Value(x) && BinIndex.Log2(Value(x)) == Value(k)
  {
    SmallWords();
    ShiftedDown(x, k);
    ScanIs(Value(x), Value(k));
  }

  lemma BitBelow(s: bv32, k: bv32)
    requires k < 16
    ensures Value((k << 1) + ((s >> (k + 7)) & 1)) == 2 * Value(k) + (Value(s) / BinIndex.Pow2(Value(k) + 7)) % 2
  {
    SevenMore(k);
    ShiftedDown(s, k + 7);
    SumValue(k, s >> (k + 7));
  }

  lemma Scanned(s: bv32, x: bv32) returns (k: bv32)
    requires x == s >> 8 && 0 < x <= 0xFFFF
    ensures k < 16 && x >> k == 1 && BinTricks.TreeIndex(s) == (k << 1) + ((s >> (k + 7)) & 1)
  {
    BinTricks.HighestBitIsScan(x);
    k := BinTricks.HighestBit(x);
    BinTricks.ScanFormula(s, k);
  }

  lemma Outside(s: bv32, x: bv32)
    requires x == s >> 8 && (x == 0 || 0xFFFF < x)
    ensures BinTricks.TreeIndex(s) == if x == 0 then 0 else 31
  {}

  lemma Shifted(s: bv32) returns (x: bv32)
    ensures x == s >> 8
  {
    x := s >> 8;
  }

  /** compute_tree_index is the same with shifts as with the scan instruction. */
  lemma TreeIndexValue(s: bv32)
    ensures Value(BinTricks.TreeIndex(s)) == BinIndex.TreeIndex(Value(s))
  {
    var x := Shifted(s);
    SmallWords();
    ByteDown(s, x);
    ZeroValue(x);
    Above(x);
    if x == 0 || 0xFFFF < x {
      Outside(s, x);
    } else {
      var k := Scanned(s, x);
      ScanValue(x, k);
      BitBelow(s, k);
    }
  }

  lemma TreeIndexAgrees(s: bv32)
    ensures BinTricks.TreeIndex(s) as nat == BinIndex.TreeIndex(s as nat)
  {
    ValueIs(s);
    ValueIs(BinTricks.TreeIndex(s));
    TreeIndexValue(s);
  }

  lemma BitOfHalf(m: bv32, i: bv32)
    requires 0 < i < 32
    ensures BinTricks.BitAt(m, i) == BinTricks.BitAt(m >> 1, i - 1)
  {}

  lemma BitStep(v: nat, n: nat)
    ensures BitWords.Bit(v, 0) <==> v % 2 == 1
    ensures BitWords.Bit(v, n + 1) <==> BitWords.Bit(v / 2, n)
  {}

  lemma {:induction false} BitAgrees(m: bv32, i: bv32)
    requires i < 32
    ensures BinTricks.BitAt(m, i) <==> BitWords.Bit(Value(m), Value(i))
    decreases i
  {
    LowestAgrees(m);
    BitStep(Value(m), if i == 0 then 0 else Value(i - 1));
    if i != 0 {
      Successor(i - 1);
      BitOfHalf(m, i);
      BitAgrees(m >> 1, i - 1);
    }
  }

  lemma {:induction false} IndexOf(n: nat) returns (i: bv32)
    requires n < 32
    ensures i < 32 && Value(i) == n
  {
    i := 0;
    if n != 0 {
      i := IndexOf(n - 1);
      Successor(i);
      NotLast(i, n);
      i := i + 1;
    }
  }

  lemma NotLast(i: bv32, n: nat)
    requires i < 32 && Value(i) + 1 == n < 32
    ensures i + 1 < 32
  {
    SmallWords();
    if i == 31 {
      assert false;
    }
  }

  lemma NoneLeft(m: bv32, i: bv32, j: bv32)
    requires i < j < 32 && ((0xFFFF_FFFE as bv32) << i) & m == 0
    ensures !BinTricks.BitAt(m, j)
  {}

  lemma UpOnce(c: bv32, k: bv32)
    requires (c == 1 || c == 3) && 0 < k < 31
    ensures (c << k) >> 1 == c << (k - 1) && (c << k) & 1 == 0
  {}

  lemma UpValue(c: bv32, k: bv32)
    requires (c == 1 || c == 3) && 0 < k < 31
    ensures Value(c << k) == 2 * Value(c << (k - 1))
  {
    UpOnce(c, k);
  }

  lemma TwicePower(v: nat, n: nat)
    ensures v * BinIndex.Pow2(n + 1) == 2 * (v * BinIndex.Pow2(n))
  {}

  /** A small number shifted up is multiplied by a power of two. */
  lemma {:induction false} ShiftedUp(c: bv32, k: bv32)
    requires (c == 1 || c == 3) && k < 31
    ensures Value(c << k) == Value(c) * BinIndex.Pow2(Value(k))
    decreases k
  {
    if k != 0 {
      Successor(k - 1);
      UpValue(c, k);
      ShiftedUp(c, k - 1);
      TwicePower(Value(c), Value(k - 1));
    }
  }

  lemma MinSizeShifted(i: bv32) returns (h: bv32)
    requires i < 32
    ensures h == i >> 1 && h < 16
    ensures BinTricks.MinSize(i) == if i & 1 == 1 then 3 << (h + 7) else 1 << (h + 8)
  {
    h := i >> 1;
  }

  lemma MinSizeOf(v: nat, i: nat)
    ensures i == 2 * v ==> BinIndex.MinSize(i) == BinIndex.Pow2(v + 8)
    ensures i == 2 * v + 1 ==> BinIndex.MinSize(i) == 3 * BinIndex.Pow2(v + 7)
  {
    assert BinIndex.Pow2(v + 8) == 2 * BinIndex.Pow2(v + 7);
  }

  lemma HalfValue(m: bv32, h: bv32)
    requires h == m >> 1
    ensures Value(m) == 2 * Value(h) + Low(m)
  {}

  lemma OneUp(h: bv32)
    requires h < 16
    ensures Value(1 << (h + 8)) == BinIndex.Pow2(Value(h) + 8)
  {
    SmallWords();
    SevenMore(h);
    Successor(h + 7);
    ShiftedUp(1, h + 8);
  }

  lemma ThreeUp(h: bv32)
    requires h < 16
    ensures Value(3 << (h + 7)) == 3 * BinIndex.Pow2(Value(h) + 7)
  {
    assert Value(3) == 3;
    SevenMore(h);
    ShiftedUp(3, h + 7);
  }

  /** minsize_for_tree_index is the same number. */
  lemma MinSizeValue(i: bv32)
    requires i < 32
    ensures Value(BinTricks.MinSize(i)) == BinIndex.MinSize(Value(i))
  {
    var h := MinSizeShifted(i);
    HalfValue(i, h);
    OneUp(h);
    ThreeUp(h);
    MinSizeOf(Value(h), Value(i));
  }

  lemma {:induction false} SmallLess(a: bv32, b: bv32)
    requires a < b < 32
    ensures Value(a) < Value(b)
    decreases b
  {
    Successor(b - 1);
    if a != b - 1 {
      SmallLess(a, b - 1);
    }
  }

  lemma SmallOrder(a: bv32, b: bv32)
    requires a < 32 && b < 32
    ensures a < b <==> Value(a) < Value(b)
  {
    if a < b {
      SmallLess(a, b);
    } else if b < a {
      SmallLess(b, a);
    }
  }

  /** The next marked bin is one and the same, by the bits of a word and of its number. */
  lemma NextIs(m: bv32, i: bv32, next: bv32, j: bv32)
    requires i < next < 32 && BinTricks.BitAt(m, next) && j < 32
    requires i < j && BinTricks.BitAt(m, j) ==> next <= j
    requires BitWords.NextAbove(Value(m), Value(i), Value(j))
    ensures next == j
  {
    BitAgrees(m, next);
    BitAgrees(m, j);
    SmallOrder(i, j);
    SmallOrder(i, next);
    SmallOrder(next, j);
  }

  lemma MaskedLeft(m: bv32, i: bv32, j: bv32) returns (word: bv32)
    requires i < 32
    ensures word == BinTricks.LeftBits(1 << i) & m
    ensures i < j < 32 && BinTricks.BitAt(m, j) ==> word != 0
  {
    word := BinTricks.LeftBits(1 << i) & m;
    if i < j < 32 && word == 0 {
      BinTricks.LeftBitsOfPower(i);
      NoneLeft(m, i, j);
    }
  }

  /** Bin n follows bin idx in the map w, by the formulas on numbers. */
  ghost predicate NextByScan(w: nat, idx: nat, n: nat)
    requires w < BinIndex.WORD && idx < 32
  {
    && BitWords.LeftBits(BitWords.Idx2Bit(idx)) < BinIndex.WORD
    && var left := BitWords.And(BitWords.LeftBits(BitWords.Idx2Bit(idx)), w);
    && 0 < left < BinIndex.WORD && 0 < BitWords.LeastBit(left) && n == BitWords.BitScan(BitWords.LeastBit(left))
  }

  lemma NextMarkedValue(m: bv32, i: bv32)
    requires i < 32 && Value(i) < 32 && Value(m) < BinIndex.WORD
    ensures var word := BinTricks.LeftBits(1 << i) & m;
      if word != 0 then NextByScan(Value(m), Value(i), Value(BinTricks.Bit2Idx(BinTricks.LeastBit(word))))
      else BitWords.And(BitWords.LeftBits(BitWords.Idx2Bit(Value(i))), Value(m)) == 0
  {
    BitWords.NextMarked(Value(m), Value(i));
    var left := BitWords.And(BitWords.LeftBits(BitWords.Idx2Bit(Value(i))), Value(m));
    if left == 0 {
      NoneMarked(m, i);
    } else {
      var j := IndexOf(BitWords.BitScan(BitWords.LeastBit(left)));
      Found(m, i, j);
    }
  }

  /** The next marked bin above bin i, by the tricks on words and by the formulas on numbers, is the same,
      and both tell alike that there is none. */
  lemma NextMarkedAgrees(m: bv32, i: bv32)
    requires i < 32
    ensures i as nat < 32 && m as nat < BinIndex.WORD
    ensures var word := BinTricks.LeftBits(1 << i) & m;
      if word != 0 then NextByScan(m as nat, i as nat, BinTricks.Bit2Idx(BinTricks.LeastBit(word)) as nat)
      else BitWords.And(BitWords.LeftBits(BitWords.Idx2Bit(i as nat)), m as nat) == 0
  {
    SmallWords();
    SmallOrder(31, i);
    ValueIs(m);
    ValueIs(i);
    ValueIs(BinTricks.Bit2Idx(BinTricks.LeastBit(BinTricks.LeftBits(1 << i) & m)));
    NextMarkedValue(m, i);
  }

  lemma MinSizeAgrees(i: bv32)
    requires i < 32
    ensures BinTricks.MinSize(i) as nat == BinIndex.MinSize(i as nat)
  {
    ValueIs(i);
    ValueIs(BinTricks.MinSize(i));
    MinSizeValue(i);
  }

  lemma NoneMarked(m: bv32, i: bv32)
    requires i < 32 && forall j: nat :: Value(i) < j < 32 ==> !BitWords.Bit(Value(m), j)
    ensures BinTricks.LeftBits(1 << i) & m == 0
  {
    var word := MaskedLeft(m, i, 0);
    if word != 0 {
      var l, next := BinTricks.NextMarked(m, i, 0);
      BitAgrees(m, next);
      SmallOrder(i, next);
      SmallOrder(next, 31);
      SmallWords();
    }
  }

  lemma Found(m: bv32, i: bv32, j: bv32)
    requires i < 32 && j < 32 && BitWords.NextAbove(Value(m), Value(i), Value(j))
    ensures BinTricks.LeftBits(1 << i) & m != 0
    ensures BinTricks.Bit2Idx(BinTricks.LeastBit(BinTricks.LeftBits(1 << i) & m)) == j
  {
    var word := MaskedLeft(m, i, j);
    BitAgrees(m, j);
    SmallOrder(i, j);
    var l, next := BinTricks.NextMarked(m, i, j);
    NextIs(m, i, next, j);
  }
}

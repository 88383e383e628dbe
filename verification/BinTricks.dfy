/** The branch-free index computations on machine words, for processors without a bit-scan instruction. */
module BinTricks {

  /** minsize_for_tree_index */
  function MinSize(i: bv32): bv32
    requires i < 32
  {
    (1 << ((i >> 1) + 8)) | ((i & 1) << ((i >> 1) + 7))
  }

  /** The position of the highest set bit of a 16-bit value. */
  function HighestBit(x: bv32): bv32 {
    var n0 := ((x - 0x100) >> 16) & 8;
    var y1 := x << n0;
    var k1 := ((y1 - 0x1000) >> 16) & 4;
    var y2 := y1 << k1;
    var k2 := ((y2 - 0x4000) >> 16) & 2;
    var y3 := y2 << k2;
    14 - (n0 + k1 + k2) + (y3 >> 15)
  }

  /** compute_tree_index without the scan instruction. */
  function TreeIndex(s: bv32): bv32 {
    var x := s >> 8;
    if x == 0 then 0
    else if 0xFFFF < x then 31
    else
      assert x <= 0xFFFF && 0 < x;
      HighestBitIsScan(x);
      var k := HighestBit(x);
      (k << 1) + ((s >> (k + 7)) & 1)
  }

  lemma HighestBitIsScan(x: bv32)
    requires 0 < x <= 0xFFFF
    ensures HighestBit(x) < 16 && x >> HighestBit(x) == 1
  {}

  lemma ScanIsUnique(x: bv32, k: bv32, j: bv32)
    requires k < 16 && j < 16 && x >> k == 1 && x >> j == 1
    ensures k == j
  {}

  /** The index is the bit-scan formula: k is the position of the highest bit of the size shifted by 8. */
  lemma ScanFormula(s: bv32, k: bv32)
    requires k < 16 && (s >> 8) >> k == 1
    ensures TreeIndex(s) == (k << 1) + ((s >> (k + 7)) & 1)
  {
    ShiftedBelow(s >> 8, k);
    HighestBitIsScan(s >> 8);
    ScanIsUnique(s >> 8, HighestBit(s >> 8), k);
  }

  lemma ShiftedBelow(x: bv32, k: bv32)
    requires k < 16 && x >> k == 1
    ensures 0 < x <= 0xFFFF
  {}

  /** compute_bit2idx without the scan instruction. */
  function Bit2Idx(x: bv32): bv32 {
    var y0 := x - 1;
    var k0 := (y0 >> 12) & 16;
    var y1 := y0 >> k0;
    var k1 := (y1 >> 5) & 8;
    var y2 := y1 >> k1;
    var k2 := (y2 >> 2) & 4;
    var y3 := y2 >> k2;
    var k3 := (y3 >> 1) & 2;
    var y4 := y3 >> k3;
    var k4 := (y4 >> 1) & 1;
    k0 + k1 + k2 + k3 + k4 + (y4 >> k4)
  }

  function LeastBit(x: bv32): bv32 {
    x & -x
  }

  function LeftBits(x: bv32): bv32 {
    (x << 1) | -(x << 1)
  }

  predicate BitAt(m: bv32, i: bv32)
    requires i < 32
  {
    (m >> i) & 1 == 1
  }

  lemma LeastBitIsPower(x: bv32)
    requires x != 0
    ensures var b := LeastBit(x); b != 0 && b & (b - 1) == 0 && x & b == b && x & (b - 1) == 0
  {}

  lemma Bit2IdxOfPower(b: bv32)
    requires b != 0 && b & (b - 1) == 0
    ensures Bit2Idx(b) < 32 && 1 << Bit2Idx(b) == b
  {}

  lemma LeftBitsOfPower(i: bv32)
    requires i < 32
    ensures LeftBits(1 << i) == (0xFFFF_FFFE as bv32) << i
  {}

  lemma MarkedAbove(m: bv32, i: bv32, next: bv32)
    requires i < 32 && next < 32
    requires var left := ((0xFFFF_FFFE as bv32) << i) & m; left & ((1 as bv32) << next) == (1 as bv32) << next
    ensures i < next && BitAt(m, next)
  {}

  lemma NoneBetween(m: bv32, i: bv32, next: bv32, j: bv32)
    requires i < j < 32 && next < 32 && BitAt(m, j)
    requires var left := ((0xFFFF_FFFE as bv32) << i) & m; left & (((1 as bv32) << next) - 1) == 0
    ensures next <= j
  {}

  lemma ScanOfLeast(left: bv32) returns (next: bv32)
    requires left != 0
    ensures next == Bit2Idx(LeastBit(left)) && next < 32
    ensures left & ((1 as bv32) << next) == (1 as bv32) << next && left & (((1 as bv32) << next) - 1) == 0
  {
    LeastBitIsPower(left);
    Bit2IdxOfPower(LeastBit(left));
    next := Bit2Idx(LeastBit(left));
  }

  /** The least bit of a map to the left of bit i is the next set bit. */
  lemma NextMarked(m: bv32, i: bv32, j: bv32) returns (left: bv32, next: bv32)
    requires i < 32 && j < 32 && LeftBits(1 << i) & m != 0
    ensures left == LeftBits(1 << i) & m && next == Bit2Idx(LeastBit(left))
    ensures i < next < 32 && BitAt(m, next)
    ensures i < j && BitAt(m, j) ==> next <= j
  {
    LeftBitsOfPower(i);
    left := LeftBits(1 << i) & m;
    next := ScanOfLeast(left);
    MarkedAbove(m, i, next);
    if i < j && BitAt(m, j) {
      NoneBetween(m, i, next, j);
    }
  }

  /** The size lies between the lower bounds of its bin and of the next one; the last bin is unbounded. */
  lemma IndexBounds(s: bv32)
    requires 256 <= s
    ensures TreeIndex(s) < 32 && MinSize(TreeIndex(s)) <= s
    ensures TreeIndex(s) < 31 ==> s < MinSize(TreeIndex(s) + 1)
  {}

  lemma Mono(s: bv32, t: bv32)
    requires 256 <= s <= t
    ensures TreeIndex(s) <= TreeIndex(t)
  {}
}

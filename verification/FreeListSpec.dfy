/** The free list of the physical memory manager as a value: an address-ordered
    sequence of blocks, and the set of free addresses it stands for. */
module FreeListSpec {

  const WORD: nat := 0x1_0000_0000

  /** sizeof(struct memheader): no smaller piece of memory can carry a header. */
  const HEADER: nat := 8

  datatype Block = Block(base: nat, size: nat) {
    function End(): nat {
      base + size
    }
  }

  /** Every block before i ends below it, and every block after i starts above its end. */
  ghost predicate Isolated(bs: seq<Block>, i: nat)
    requires i < |bs|
  {
    && (forall c :: 0 <= c < i ==> bs[c].End() < bs[i].base)
    && (forall c :: i < c < |bs| ==> bs[i].End() < bs[c].base)
  }

  /** Address order, a gap between any two blocks, and room for a header in every one. */
  ghost predicate Canonical(bs: seq<Block>) {
    && (forall i :: 0 <= i < |bs| ==> 0 < bs[i].base && 8 <= bs[i].size && bs[i].End() < 0x1_0000_0000)
    && (forall i :: 0 <= i < |bs| ==> Isolated(bs, i))
  }

  /** Address a lies in a free block. */
  ghost predicate Free(bs: seq<Block>, a: int) {
    exists i :: 0 <= i < |bs| && bs[i].base <= a < bs[i].End()
  }

  /** Both lists describe the same free memory. */
  ghost predicate SameCells(xs: seq<Block>, ys: seq<Block>) {
    forall a: int :: Free(xs, a) <==> Free(ys, a)
  }

  function Sum(bs: seq<Block>): nat {
    if bs == [] then 0 else bs[0].size + Sum(bs[1..])
  }

  /** A piece of memory that is kept only when it can carry a header. */
  function Piece(base: nat, size: nat): seq<Block> {
    if size < HEADER then [] else [Block(base, size)]
  }

  /** The list after [base, base + amount) is cut out of block i. */
  function Carve(bs: seq<Block>, i: nat, base: nat, amount: nat): seq<Block>
    requires i < |bs| && bs[i].base <= base && base + amount <= bs[i].End()
  {
    bs[..i] + Piece(bs[i].base, base - bs[i].base)
            + Piece(base + amount, bs[i].End() - (base + amount)) + bs[i + 1..]
  }

  /** Bytes that drop out of the pool because they are too few to carry a header. */
  function Sliver(size: nat): nat {
    if size < HEADER then size else 0
  }

  function Lost(b: Block, base: nat, amount: nat): nat
    requires b.base <= base && base + amount <= b.End()
  {
    Sliver(base - b.base) + Sliver(b.End() - (base + amount))
  }

  /** The free list is a canonical form: the set of free addresses determines it. */
  lemma {:induction false} CanonicalIsUnique(xs: seq<Block>, ys: seq<Block>)
    requires Canonical(xs) && Canonical(ys) && SameCells(xs, ys)
    ensures xs == ys
  {
    if xs != [] { HeadIsFree(xs); }
    if ys != [] { HeadIsFree(ys); }
    if xs != [] && ys != [] {
      FirstBlockDetermined(xs, ys);
      FirstBlockDetermined(ys, xs);
      TailsAgree(xs, ys);
      CanonicalIsUnique(xs[1..], ys[1..]);
      assert xs == [xs[0]] + xs[1..] && ys == [ys[0]] + ys[1..];
    }
  }

  lemma TailsAgree(xs: seq<Block>, ys: seq<Block>)
    requires Canonical(xs) && Canonical(ys) && SameCells(xs, ys)
    requires xs != [] && ys != [] && xs[0] == ys[0]
    ensures Canonical(xs[1..]) && Canonical(ys[1..]) && SameCells(xs[1..], ys[1..])
  {
    CanonicalParts(xs, 1);
    CanonicalParts(ys, 1);
    forall a: int
      ensures Free(xs[1..], a) <==> Free(ys[1..], a)
    {
      FreeSplit(xs, 0, a);
      FreeSplit(ys, 0, a);
    }
  }

  lemma HeadIsFree(xs: seq<Block>)
    requires Canonical(xs) && xs != []
    ensures Free(xs, xs[0].base)
    ensures forall a :: Free(xs, a) ==> xs[0].base <= a
    ensures !Free(xs, xs[0].End())
    ensures forall a :: xs[0].base <= a < xs[0].End() ==> Free(xs, a)
  {
    assert Isolated(xs, 0);
  }

  lemma FirstBlockDetermined(xs: seq<Block>, ys: seq<Block>)
    requires Canonical(xs) && Canonical(ys) && xs != [] && ys != [] && SameCells(xs, ys)
    ensures ys[0].base <= xs[0].base && (xs[0].base == ys[0].base ==> ys[0].size <= xs[0].size)
  {
    HeadIsFree(xs);
    HeadIsFree(ys);
    if ys[0].base <= xs[0].End() < ys[0].End() {}
  }

  lemma FreeConcat(xs: seq<Block>, ys: seq<Block>, a: int)
    ensures Free(xs + ys, a) <==> Free(xs, a) || Free(ys, a)
  {
    var zs := xs + ys;
    if Free(xs, a) {
      var i :| 0 <= i < |xs| && xs[i].base <= a < xs[i].End();
      assert zs[i] == xs[i];
    }
    if Free(ys, a) {
      var i :| 0 <= i < |ys| && ys[i].base <= a < ys[i].End();
      assert zs[|xs| + i] == ys[i];
    }
  }

  /** An address is free in block i, or in the blocks before it, or in those after it: never in two. */
  lemma FreeSplit(bs: seq<Block>, i: nat, a: int)
    requires Canonical(bs) && i < |bs|
    ensures Free(bs, a) <==> Free(bs[..i], a) || bs[i].base <= a < bs[i].End() || Free(bs[i + 1..], a)
    ensures Free(bs[..i], a) ==> a < bs[i].base
    ensures Free(bs[i + 1..], a) ==> bs[i].End() < a
  {
    assert Isolated(bs, i);
    assert bs == bs[..i] + ([bs[i]] + bs[i + 1..]);
    FreeConcat(bs[..i], [bs[i]] + bs[i + 1..], a);
    FreeConcat([bs[i]], bs[i + 1..], a);
    assert Free([bs[i]], a) <==> bs[i].base <= a < bs[i].End() by {
      assert [bs[i]][0] == bs[i];
    }
  }

  /** Canonical lists that lie on either side of an address join into one. */
  lemma CanonicalConcat(xs: seq<Block>, ys: seq<Block>, middle: nat)
    requires Canonical(xs) && Canonical(ys)
    requires Below(xs, middle) && Above(ys, middle)
    ensures Canonical(xs + ys)
  {
    var zs := xs + ys;
    forall i | 0 <= i < |zs|
      ensures Isolated(zs, i)
    {
      if i < |xs| {
        assert Isolated(xs, i);
      } else {
        assert Isolated(ys, i - |xs|);
      }
    }
  }

  lemma CanonicalParts(bs: seq<Block>, i: nat)
    requires Canonical(bs) && i <= |bs|
    ensures Canonical(bs[..i]) && Canonical(bs[i..])
  {
    forall c | 0 <= c < i
      ensures Isolated(bs[..i], c)
    {
      assert Isolated(bs, c);
    }
    forall c | 0 <= c < |bs| - i
      ensures Isolated(bs[i..], c)
    {
      assert Isolated(bs, i + c);
    }
  }

  ghost predicate Below(xs: seq<Block>, a: nat) {
    forall i :: 0 <= i < |xs| ==> xs[i].End() <= a
  }

  ghost predicate Above(xs: seq<Block>, a: nat) {
    forall i :: 0 <= i < |xs| ==> a < xs[i].base
  }

  lemma CarveIsCanonical(bs: seq<Block>, i: nat, base: nat, amount: nat)
    requires Canonical(bs) && i < |bs| && bs[i].base <= base && base + amount <= bs[i].End() && 0 < amount
    ensures Canonical(Carve(bs, i, base, amount))
  {
    var b := bs[i];
    assert Isolated(bs, i);
    CanonicalParts(bs, i);
    CanonicalParts(bs, i + 1);
    var low := CarveBelow(bs[..i], b.base, base - b.base);
    var high := CarveAbove(bs[i + 1..], base + amount, b.End());
    CanonicalConcat(low, high, base);
    assert Carve(bs, i, base, amount) == low + high;
  }

  /** A request of no bytes at the front of a block changes nothing. */
  lemma CarveNothing(bs: seq<Block>, i: nat)
    requires Canonical(bs) && i < |bs|
    ensures Carve(bs, i, bs[i].base, 0) == bs
  {
    assert Isolated(bs, i);
    assert bs == bs[..i] + [bs[i]] + bs[i + 1..];
  }

  /** Cutting off the front of a block. */
  lemma CarveFront(bs: seq<Block>, i: nat, amount: nat)
    requires Canonical(bs) && i < |bs| && amount <= bs[i].size
    ensures var b := bs[i]; var cs := Carve(bs, i, b.base, amount);
      Canonical(cs) && cs == bs[..i] + Piece(b.base + amount, b.size - amount) + bs[i + 1..]
  {
    if amount == 0 {
      CarveNothing(bs, i);
    } else {
      CarveIsCanonical(bs, i, bs[i].base, amount);
    }
  }

  lemma CarveBelow(xs: seq<Block>, base: nat, size: nat) returns (low: seq<Block>)
    requires Canonical(xs) && 0 < base && base + size < WORD && Below(xs, base - 1)
    ensures low == xs + Piece(base, size) && Canonical(low) && Below(low, base + size)
  {
    low := xs + Piece(base, size);
    CanonicalConcat(xs, Piece(base, size), base - 1);
  }

  lemma CarveAbove(xs: seq<Block>, base: nat, end: nat) returns (high: seq<Block>)
    requires Canonical(xs) && 0 < base <= end < WORD && Above(xs, end)
    ensures high == Piece(base, end - base) + xs && Canonical(high) && Above(high, base - 1)
  {
    high := Piece(base, end - base) + xs;
    CanonicalConcat(Piece(base, end - base), xs, end);
  }

  /** Cutting a region out of a block removes exactly that region and the slivers beside it. */
  lemma CarveCells(bs: seq<Block>, i: nat, base: nat, amount: nat, a: int)
    requires Canonical(bs) && i < |bs| && bs[i].base <= base && base + amount <= bs[i].End() && 0 < amount
    ensures Free(Carve(bs, i, base, amount), a)
       <==> (Free(bs, a) && !(base - Sliver(base - bs[i].base) <= a
                              < base + amount + Sliver(bs[i].End() - (base + amount))))
  {
    var left, right := Piece(bs[i].base, base - bs[i].base), Piece(base + amount, bs[i].End() - (base + amount));
    FreeConcat(bs[..i] + left + right, bs[i + 1..], a);
    FreeConcat(bs[..i] + left, right, a);
    FreeConcat(bs[..i], left, a);
    FreeSplit(bs, i, a);
    PieceCells(bs[i].base, base - bs[i].base, a);
    PieceCells(base + amount, bs[i].End() - (base + amount), a);
  }

  /** The free addresses after a region has been cut out of block i: it is gone, and so is what lies on either side
      of it in the block if that is less than 8 bytes. */
  ghost predicate CutCells(bs: seq<Block>, i: nat, base: nat, amount: nat, cs: seq<Block>)
    requires i < |bs|
  {
    forall a: int :: Free(cs, a) <==>
      && Free(bs, a) && !(base <= a < base + amount)
      && !(bs[i].base <= a < base && base - bs[i].base < 8)
      && !(base + amount <= a < bs[i].End() && bs[i].End() - (base + amount) < 8)
  }

  lemma CarveIsCut(bs: seq<Block>, i: nat, base: nat, amount: nat)
    requires Canonical(bs) && i < |bs| && bs[i].base <= base && base + amount <= bs[i].End() && (amount == 0 ==> base == bs[i].base)
    ensures CutCells(bs, i, base, amount, Carve(bs, i, base, amount))
  {
    if amount == 0 {
      CarveNothing(bs, i);
    } else {
      forall a: int
        ensures Free(Carve(bs, i, base, amount), a) <==>
          && Free(bs, a) && !(base <= a < base + amount)
          && !(bs[i].base <= a < base && base - bs[i].base < 8)
          && !(base + amount <= a < bs[i].End() && bs[i].End() - (base + amount) < 8)
      {
        CarveCells(bs, i, base, amount, a);
      }
    }
  }

  lemma PieceCells(base: nat, size: nat, a: int)
    ensures Free(Piece(base, size), a) <==> HEADER <= size && base <= a < base + size
  {
    if HEADER <= size {
      assert Piece(base, size)[0] == Block(base, size);
    }
  }

  lemma {:induction false} SumConcat(xs: seq<Block>, ys: seq<Block>)
    ensures Sum(xs + ys) == Sum(xs) + Sum(ys)
  {
    if xs == [] {
      assert xs + ys == ys;
    } else {
      SumConcat(xs[1..], ys);
      assert (xs + ys)[1..] == xs[1..] + ys;
    }
  }

  lemma SumSplit(bs: seq<Block>, i: nat)
    requires i < |bs|
    ensures Sum(bs) == Sum(bs[..i]) + bs[i].size + Sum(bs[i + 1..])
  {
    SumConcat(bs[..i], bs[i..]);
    assert bs == bs[..i] + bs[i..] && bs[i..][1..] == bs[i + 1..];
  }

  lemma CarveSum(bs: seq<Block>, i: nat, base: nat, amount: nat)
    requires i < |bs| && bs[i].base <= base && base + amount <= bs[i].End()
    ensures Sum(Carve(bs, i, base, amount)) == Sum(bs) - amount - Lost(bs[i], base, amount)
  {
    var left, right := Piece(bs[i].base, base - bs[i].base), Piece(base + amount, bs[i].End() - (base + amount));
    SumConcat(bs[..i] + left + right, bs[i + 1..]);
    SumConcat(bs[..i] + left, right);
    SumConcat(bs[..i], left);
    SumSplit(bs, i);
  }

  /** Handing a carved region back rebuilds the very same list when no sliver was dropped,
      and not otherwise. */
  lemma AllocThenFree(bs: seq<Block>, i: nat, base: nat, amount: nat, after: seq<Block>)
    requires Canonical(bs) && i < |bs| && bs[i].base <= base && base + amount <= bs[i].End() && 0 < amount
    requires Canonical(after)
    requires forall a: int :: Free(after, a) <==> Free(Carve(bs, i, base, amount), a) || base <= a < base + amount
    ensures after == bs <==> Lost(bs[i], base, amount) == 0
  {
    forall a: int
      ensures Free(after, a) <==> (Free(bs, a)
                && !(base - Sliver(base - bs[i].base) <= a < base)
                && !(base + amount <= a < base + amount + Sliver(bs[i].End() - (base + amount))))
    {
      CarveCells(bs, i, base, amount, a);
      FreeSplit(bs, i, a);
    }
    if Lost(bs[i], base, amount) == 0 {
      CanonicalIsUnique(after, bs);
    } else {
      var a := if 0 < Sliver(base - bs[i].base) then base - 1 else base + amount;
      FreeSplit(bs, i, a);
      assert Free(bs, a) != Free(after, a);
    }
  }

  /** The blocks of mid and the region [base, base + amount) make up exactly block b. */
  ghost predicate Covers(b: Block, mid: seq<Block>, base: nat, amount: nat) {
    && b.size == Sum(mid) + amount
    && (forall a: int :: Free(mid, a) || base <= a < base + amount <==> b.base <= a < b.End())
  }

  /** Putting such a block in the place of mid frees exactly the region. */
  lemma MergeFrees(xs: seq<Block>, mid: seq<Block>, ys: seq<Block>, b: Block, base: nat, amount: nat)
    requires Canonical(xs + mid + ys) && Covers(b, mid, base, amount)
    requires 0 < b.base && HEADER <= b.size && b.End() < WORD
    requires Below(xs, b.base - 1) && Above(ys, b.End())
    ensures Canonical(xs + [b] + ys)
    ensures Sum(xs + [b] + ys) == Sum(xs + mid + ys) + amount
    ensures forall a: int :: Free(xs + [b] + ys, a) <==> Free(xs + mid + ys, a) || base <= a < base + amount
  {
    CanonicalParts(xs + mid + ys, |xs|);
    CanonicalParts(xs + mid + ys, |xs + mid|);
    assert (xs + mid + ys)[..|xs|] == xs && (xs + mid + ys)[|xs + mid|..] == ys;
    assert Isolated([b], 0);
    CanonicalConcat(xs, [b], b.base - 1);
    CanonicalConcat(xs + [b], ys, b.End());
    SumConcat3(xs, [b], ys);
    SumConcat3(xs, mid, ys);
    forall a: int
      ensures Free(xs + [b] + ys, a) <==> Free(xs + mid + ys, a) || base <= a < base + amount
    {
      assert [b][0] == b;
      FreeConcat3(xs, [b], ys, a);
      FreeConcat3(xs, mid, ys, a);
    }
  }

  lemma SumConcat3(xs: seq<Block>, ys: seq<Block>, zs: seq<Block>)
    ensures Sum(xs + ys + zs) == Sum(xs) + Sum(ys) + Sum(zs)
  {
    SumConcat(xs + ys, zs);
    SumConcat(xs, ys);
  }

  lemma FreeConcat3(xs: seq<Block>, ys: seq<Block>, zs: seq<Block>, a: int)
    ensures Free(xs + ys + zs, a) <==> Free(xs, a) || Free(ys, a) || Free(zs, a)
  {
    FreeConcat(xs + ys, zs, a);
    FreeConcat(xs, ys, a);
  }
}

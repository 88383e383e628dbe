/** The physical memory manager: a linked free list whose headers live inside the free blocks.
    Memory is two maps from address to word, one per header field. */
module MemPool {
  import opened FreeListSpec

  const NULL: int := 0
  /** The address of the pool's own header, which lies outside the managed memory. */
  const TOP: int := -1

  function Wrap(x: int): (w: nat)
    ensures w < 0x1_0000_0000
    ensures w == x || x < 0 || 0x1_0000_0000 <= x
    ensures w == x + 0x1_0000_0000 || x < -0x1_0000_0000 || 0 <= x
  {
    x % WORD
  }

  /** The address of block i, or `tail` past the end of the list. */
  function AddrAt(bs: seq<Block>, i: nat, tail: int): int {
    if i < |bs| then bs[i].base else tail
  }

  function RefBefore(bs: seq<Block>, i: nat): int
    requires i <= |bs|
  {
    if i == 0 then TOP else bs[i - 1].base
  }

  /** The header of block i is in memory and links to block i + 1. */
  ghost predicate Header(next: map<int, int>, size: map<int, nat>, bs: seq<Block>, i: nat, tail: int)
    requires i < |bs|
  {
    && bs[i].base in next && next[bs[i].base] == AddrAt(bs, i + 1, tail)
    && bs[i].base in size && size[bs[i].base] == bs[i].size
  }

  /** The blocks of bs are chained in order; the last one links to `tail`. */
  ghost predicate Chained(next: map<int, int>, size: map<int, nat>, bs: seq<Block>, tail: int) {
    forall i :: 0 <= i < |bs| ==> Header(next, size, bs, i, tail)
  }

  /** Following `next` from the pool header visits exactly the blocks of bs, in order. */
  ghost predicate Linked(next: map<int, int>, size: map<int, nat>, bs: seq<Block>) {
    TOP in next && TOP in size && next[TOP] == AddrAt(bs, 0, NULL) && Chained(next, size, bs, NULL)
  }

  lemma ChainedConcat(next: map<int, int>, size: map<int, nat>, xs: seq<Block>, ys: seq<Block>, tail: int)
    ensures Chained(next, size, xs + ys, tail)
       <==> Chained(next, size, xs, AddrAt(ys, 0, tail)) && Chained(next, size, ys, tail)
  {
    var zs := xs + ys;
    if Chained(next, size, zs, tail) {
      forall i | 0 <= i < |xs|
        ensures Header(next, size, xs, i, AddrAt(ys, 0, tail))
      {
        assert Header(next, size, zs, i, tail);
      }
      forall i | 0 <= i < |ys|
        ensures Header(next, size, ys, i, tail)
      {
        assert Header(next, size, zs, |xs| + i, tail);
      }
    }
    if Chained(next, size, xs, AddrAt(ys, 0, tail)) && Chained(next, size, ys, tail) {
      forall i | 0 <= i < |zs|
        ensures Header(next, size, zs, i, tail)
      {
        if i < |xs| {
          assert Header(next, size, xs, i, AddrAt(ys, 0, tail));
        } else {
          assert Header(next, size, ys, i - |xs|, tail);
        }
      }
    }
  }

  /** The words at r are untouched. */
  ghost predicate Kept(m: map<int, int>, m': map<int, int>, r: int) {
    r in m ==> r in m' && m'[r] == m[r]
  }

  /** A chain whose headers are untouched, except that its last link now goes to tail'. */
  lemma ChainedRetarget(next: map<int, int>, size: map<int, nat>, next': map<int, int>, size': map<int, nat>,
                        xs: seq<Block>, tail: int, tail': int)
    requires Chained(next, size, xs, tail)
    requires forall i :: 0 <= i < |xs| ==> Kept(size, size', xs[i].base)
    requires forall i :: 0 <= i < |xs| - 1 ==> Kept(next, next', xs[i].base)
    requires xs != [] ==> var r := xs[|xs| - 1].base; r in next' && next'[r] == tail'
    ensures Chained(next', size', xs, tail')
  {
    forall i | 0 <= i < |xs|
      ensures Header(next', size', xs, i, tail')
    {
      assert Header(next, size, xs, i, tail);
      assert Kept(size, size', xs[i].base);
    }
  }

  lemma ThreeParts(bs: seq<Block>, i: nat, k: nat)
    requires i + k <= |bs|
    ensures bs == bs[..i] + bs[i..] && bs[i..] == bs[i..i + k] + bs[i + k..]
    ensures bs == bs[..i] + bs[i..i + k] + bs[i + k..]
  {
    assert bs[i..] == bs[i..][..k] + bs[i..][k..];
    assert bs[i..][..k] == bs[i..i + k] && bs[i..][k..] == bs[i + k..];
  }

  /** Relinking around blocks i..i+k so that mid takes their place. */
  lemma SpliceLinks(next: map<int, int>, size: map<int, nat>, next': map<int, int>, size': map<int, nat>,
                    bs: seq<Block>, i: nat, k: nat, mid: seq<Block>)
    requires i + k <= |bs| && Linked(next, size, bs)
    requires forall c :: 0 <= c < i || i + k <= c < |bs| ==> Kept(size, size', bs[c].base)
    requires forall c :: 0 <= c < i - 1 || i + k <= c < |bs| ==> Kept(next, next', bs[c].base)
    requires TOP in next' && TOP in size' && (i != 0 ==> next'[TOP] == next[TOP])
    requires RefBefore(bs, i) in next'
    requires next'[RefBefore(bs, i)] == AddrAt(mid, 0, AddrAt(bs, i + k, NULL))
    requires Chained(next', size', mid, AddrAt(bs, i + k, NULL))
    ensures Linked(next', size', bs[..i] + mid + bs[i + k..])
  {
    var xs, ys := bs[..i], bs[i + k..];
    ThreeParts(bs, i, k);
    ChainedConcat(next, size, xs, bs[i..], NULL);
    ChainedConcat(next, size, bs[i..i + k], ys, NULL);
    ChainedRetarget(next, size, next', size', xs, AddrAt(bs[i..], 0, NULL), AddrAt(mid + ys, 0, NULL));
    ChainedKept(next, size, next', size', ys, NULL);
    ChainedConcat(next', size', mid, ys, NULL);
    ChainedConcat(next', size', xs, mid + ys, NULL);
    assert bs[..i] + mid + bs[i + k..] == xs + (mid + ys);
  }

  lemma ChainedKept(next: map<int, int>, size: map<int, nat>, next': map<int, int>, size': map<int, nat>,
                    xs: seq<Block>, tail: int)
    requires Chained(next, size, xs, tail)
    requires forall i :: 0 <= i < |xs| ==> Kept(size, size', xs[i].base) && Kept(next, next', xs[i].base)
    ensures Chained(next', size', xs, tail)
  {
    forall i | 0 <= i < |xs|
      ensures Header(next', size', xs, i, tail)
    {
      assert Header(next, size, xs, i, tail);
      assert Kept(size, size', xs[i].base);
    }
  }

  /** Some block has room for the whole of [base, base + amount). */
  ghost predicate Available(bs: seq<Block>, base: nat, amount: nat) {
    exists i :: 0 <= i < |bs| && bs[i].base <= base && base + amount <= bs[i].End()
  }

  /** The wrapped comparison `end - size >= base` is fooled: the first block starts at or below
      the region, yet ends at an address smaller than the region's size. */
  predicate Fooled(bs: seq<Block>, base: nat, amount: nat) {
    bs != [] && bs[0].base <= base && bs[0].End() < amount
  }

  /** Block i, the first one that is large enough, has given up its front. */
  ghost predicate FrontCut(bs: seq<Block>, i: int, start: int, amount: nat, cs: seq<Block>) {
    && 0 <= i < |bs| && amount <= bs[i].size && (forall j :: 0 <= j < i ==> bs[j].size < amount)
    && start == bs[i].base && cs == Carve(bs, i, start, amount) && CutCells(bs, i, start, amount, cs)
  }

  /** The region has been cut out of block i, which contained it. */
  ghost predicate CutFrom(bs: seq<Block>, i: int, base: nat, amount: nat, cs: seq<Block>) {
    && 0 <= i < |bs| && 0 < amount && bs[i].base <= base && base + amount <= bs[i].End()
    && cs == Carve(bs, i, base, amount) && CutCells(bs, i, base, amount, cs)
  }

  /** The region overlaps free memory. */
  ghost predicate Overlaps(bs: seq<Block>, base: nat, amount: nat) {
    exists i :: 0 <= i < |bs| && bs[i].base < base + amount && base < bs[i].End()
  }

  /** The region ends where some block starts, and starts where none ends. */
  ghost predicate MeetsOnlyNext(bs: seq<Block>, base: nat, amount: nat) {
    && (exists i :: 0 <= i < |bs| && bs[i].base == base + amount)
    && (forall i :: 0 <= i < |bs| ==> bs[i].End() != base)
  }

  /** Replacing block i by pieces that lie inside it, header writes being confined to the block
      before it and to the pieces, leaves a linked list. */
  lemma ReplaceLinks(next: map<int, int>, size: map<int, nat>, next': map<int, int>, size': map<int, nat>,
                     bs: seq<Block>, i: nat, mid: seq<Block>)
    requires i < |bs| && Canonical(bs) && Linked(next, size, bs)
    requires forall r :: r in size && !(bs[i].base <= r < bs[i].End()) && r != TOP ==> Kept(size, size', r)
    requires forall r :: r in next && !(bs[i].base <= r < bs[i].End()) && r != RefBefore(bs, i) ==> Kept(next, next', r)
    requires TOP in next' && TOP in size' && RefBefore(bs, i) in next'
    requires next'[RefBefore(bs, i)] == AddrAt(mid, 0, AddrAt(bs, i + 1, NULL))
    requires Chained(next', size', mid, AddrAt(bs, i + 1, NULL))
    ensures Linked(next', size', bs[..i] + mid + bs[i + 1..])
  {
    assert Isolated(bs, i);
    if i != 0 {
      assert Isolated(bs, i - 1);
      assert Kept(next, next', TOP);
    }
    SpliceLinks(next, size, next', size', bs, i, 1, mid);
  }

  lemma CutFrontLinks(next: map<int, int>, size: map<int, nat>, next': map<int, int>, size': map<int, nat>,
                      bs: seq<Block>, i: nat, amount: nat) returns (cs: seq<Block>)
    requires i < |bs| && Canonical(bs) && Linked(next, size, bs) && amount <= bs[i].size
    requires Header(next, size, bs, i, NULL)
    requires var b := bs[i]; var lsize := b.size - amount; var top := if TOP in size' then size'[TOP] else 0;
      if lsize < HEADER then
        && next' == next[RefBefore(bs, i) := next[b.base]]
        && size' == size[TOP := top]
      else
        && next' == next[b.base + amount := next[b.base]][RefBefore(bs, i) := b.base + amount]
        && size' == size[b.base + amount := lsize][TOP := top]
    ensures cs == Carve(bs, i, bs[i].base, amount) && Canonical(cs) && Linked(next', size', cs)
  {
    var b := bs[i];
    cs := Carve(bs, i, b.base, amount);
    var mid := Piece(b.base + amount, b.size - amount);
    CarveFront(bs, i, amount);
    assert i == 0 || Isolated(bs, i - 1);
    if mid != [] {
      assert Header(next', size', mid, 0, AddrAt(bs, i + 1, NULL));
    }
    ReplaceLinks(next, size, next', size', bs, i, mid);
  }

  /** The header words of the pool. */
  datatype Words = Words(next: map<int, int>, size: map<int, nat>)

  /** The bytes of block p below a region: too few, and p leaves the list. */
  function KeepBelow(w: Words, pprev: int, p: int, lsize: nat): Words
    requires p in w.next
  {
    if lsize < HEADER then Words(w.next[pprev := w.next[p]], w.size)
    else Words(w.next[p := w.next[p]][pprev := p], w.size[p := lsize])
  }

  /** The bytes above the region: a new block after q if they can carry a header. */
  function KeepAbove(w: Words, q: int, pnew: nat, lsize: nat): Words
    requires q in w.next
  {
    if lsize < HEADER then w else Words(w.next[pnew := w.next[q]][q := pnew], w.size[pnew := lsize])
  }

  lemma CutAtLinks(w: Words, w1: Words, w2: Words, bs: seq<Block>, i: nat, base: nat, amount: nat, top: nat)
      returns (cs: seq<Block>)
    requires i < |bs| && Canonical(bs) && Linked(w.next, w.size, bs) && 0 < amount
    requires bs[i].base <= base && base + amount <= bs[i].End()
    requires Header(w.next, w.size, bs, i, NULL)
    requires w1 == KeepBelow(w, RefBefore(bs, i), bs[i].base, base - bs[i].base)
    requires var q := if base - bs[i].base < HEADER then RefBefore(bs, i) else bs[i].base;
      w2 == KeepAbove(w1, q, base + amount, bs[i].End() - (base + amount))
    ensures cs == Carve(bs, i, base, amount) && Canonical(cs) && Linked(w2.next, w2.size[TOP := top], cs)
  {
    cs := Carve(bs, i, base, amount);
    var b := bs[i];
    var left, right := Piece(b.base, base - b.base), Piece(base + amount, b.End() - (base + amount));
    CarveIsCanonical(bs, i, base, amount);
    assert Carve(bs, i, base, amount) == bs[..i] + (left + right) + bs[i + 1..];
    assert i == 0 || Isolated(bs, i - 1);
    ChainedPieces(w2.next, w2.size[TOP := top], left, right, AddrAt(bs, i + 1, NULL));
    CutKeeps(w, w1, w2, RefBefore(bs, i), b, base, amount, top);
    ReplaceLinks(w.next, w.size, w2.next, w2.size[TOP := top], bs, i, left + right);
  }

  /** Headers outside the block are untouched, but for the link to it. */
  lemma CutKeeps(w: Words, w1: Words, w2: Words, ref: int, b: Block, base: nat, amount: nat, top: nat)
    requires b.base in w.next && b.base <= base && base + amount <= b.End() && 0 < amount
    requires w1 == KeepBelow(w, ref, b.base, base - b.base)
    requires w2 == KeepAbove(w1, if base - b.base < HEADER then ref else b.base, base + amount, b.End() - (base + amount))
    ensures forall r :: r in w.size && !(b.base <= r < b.End()) && r != TOP ==> Kept(w.size, w2.size[TOP := top], r)
    ensures forall r :: r in w.next && !(b.base <= r < b.End()) && r != ref ==> Kept(w.next, w2.next, r)
  {
    assert forall r :: r in w1.size && r != b.base ==> w1.size[r] == w.size[r];
    assert forall r :: r in w1.next && r != b.base && r != ref ==> w1.next[r] == w.next[r];
  }

  lemma ChainedPieces(next: map<int, int>, size: map<int, nat>, left: seq<Block>, right: seq<Block>, tail: int)
    requires |left| <= 1 && |right| <= 1
    requires right != [] ==> Header(next, size, right, 0, tail)
    requires left != [] ==> Header(next, size, left, 0, AddrAt(right, 0, tail))
    ensures Chained(next, size, left + right, tail)
  {
    ChainedConcat(next, size, left, right, tail);
  }

  lemma WrapTwice(x: int, y: int)
    ensures Wrap(Wrap(x) - y) == Wrap(x - y)
    ensures Wrap(Wrap(x) + y) == Wrap(x + y)
  {
    WrapShift(x - y, x / WORD);
    WrapShift(x + y, x / WORD);
  }

  lemma WrapShift(a: int, q: int)
    ensures Wrap(a - q * WORD) == Wrap(a)
  {
    var r, t := a % WORD, a / WORD;
    assert a - q * WORD == (t - q) * WORD + r;
  }

  /** Cs holds the free memory of bs and the region, nothing else. */
  ghost predicate Freed(bs: seq<Block>, cs: seq<Block>, base: nat, amount: nat) {
    && Canonical(cs) && Sum(cs) == Sum(bs) + amount
    && (forall a: int :: Free(cs, a) <==> Free(bs, a) || base <= a < base + amount)
  }

  /** What the unsigned comparison decides about block i. */
  lemma FitTest(bs: seq<Block>, i: nat, base: nat, amount: nat)
    requires Canonical(bs) && i < |bs| && 0 < amount && base + amount < WORD
    requires i != 0 ==> !Fooled(bs, base, amount)
    ensures Wrap(bs[i].End()) == bs[i].End()
    ensures (Wrap(bs[i].End() - amount) >= base && base >= bs[i].base)
       <==> (bs[i].base <= base && base + amount <= bs[i].End()) || (i == 0 && Fooled(bs, base, amount))
  {
    assert Isolated(bs, 0);
    if amount <= bs[i].End() {
      assert Wrap(bs[i].End() - amount) == bs[i].End() - amount;
    } else {
      assert Wrap(bs[i].End() - amount) == bs[i].End() - amount + WORD;
    }
  }

  /** The headers form the free list of some pool. */
  ghost predicate Intact(next: map<int, int>, size: map<int, nat>) {
    exists bs :: Canonical(bs) && Linked(next, size, bs)
  }

  /** A header that claims memory past the end of the address space, first or second in the list. */
  lemma RunsPastEnd(next: map<int, int>, size: map<int, nat>, first: int, q: int)
    requires TOP in next && next[TOP] == first != NULL
    requires first == q || (first in next && next[first] == q != NULL)
    requires q in size && WORD <= q + size[q]
    ensures !Intact(next, size)
  {
    forall bs | Canonical(bs) && Linked(next, size, bs)
      ensures false
    {
      FirstTwoBlocks(next, size, bs, first, q);
    }
  }

  lemma FirstTwoBlocks(next: map<int, int>, size: map<int, nat>, bs: seq<Block>, first: int, q: int)
    requires Canonical(bs) && Linked(next, size, bs)
    requires TOP in next && next[TOP] == first != NULL
    requires first == q || (first in next && next[first] == q != NULL)
    ensures q in size && q + size[q] < WORD
  {
    assert Header(next, size, bs, 0, NULL);
    if first != q {
      assert Header(next, size, bs, 1, NULL);
    }
  }

  lemma GrowLinks(next: map<int, int>, size: map<int, nat>, next': map<int, int>, size': map<int, nat>,
                  bs: seq<Block>, i: nat, k: nat, amount: nat) returns (cs: seq<Block>)
    requires Canonical(bs) && Linked(next, size, bs) && 1 <= k <= 2 && i + k <= |bs| && 0 < amount
    requires var end := bs[i].End() + amount;
      && end < WORD
      && (k == 2 ==> bs[i + 1].base == end)
      && (k == 1 && i + 1 < |bs| ==> end < bs[i + 1].base)
    requires size' == size[bs[i].base := bs[i].size + amount + if k == 2 then bs[i + 1].size else 0]
    requires next' == if k == 2 then next[bs[i].base := AddrAt(bs, i + 2, NULL)] else next
    ensures Linked(next', size', cs) && Freed(bs, cs, bs[i].End(), amount)
  {
    var b := Block(bs[i].base, bs[i].size + amount + if k == 2 then bs[i + 1].size else 0);
    cs := bs[..i] + [b] + bs[i + k..];
    assert Isolated(bs, i) && Isolated(bs, i + k - 1);
    assert i + 1 == |bs| || Isolated(bs, i + 1);
    assert Below(bs[..i], b.base - 1) && Above(bs[i + k..], b.End());
    assert Header(next, size, bs, i, NULL);
    if i != 0 {
      assert Header(next, size, bs, i - 1, NULL);
    }
    assert Header(next', size', [b], 0, AddrAt(bs, i + k, NULL));
    SpliceLinks(next, size, next', size', bs, i, k, [b]);
    GrowCovers(bs, i, k, b, amount);
    ThreeParts(bs, i, k);
    MergeFrees(bs[..i], bs[i..i + k], bs[i + k..], b, bs[i].End(), amount);
  }

  lemma GrowCovers(bs: seq<Block>, i: nat, k: nat, b: Block, amount: nat)
    requires 1 <= k <= 2 && i + k <= |bs|
    requires k == 2 ==> bs[i + 1].base == bs[i].End() + amount
    requires b == Block(bs[i].base, bs[i].size + amount + if k == 2 then bs[i + 1].size else 0)
    ensures Covers(b, bs[i..i + k], bs[i].End(), amount)
  {
    if k == 1 {
      assert bs[i..i + k] == [bs[i]];
      OneCovers(bs[i], b, amount);
    } else {
      assert bs[i..i + k] == [bs[i]] + [bs[i + 1]];
      TwoCover(bs[i], bs[i + 1], b, amount);
    }
  }

  lemma OneCovers(x: Block, b: Block, amount: nat)
    requires b == Block(x.base, x.size + amount)
    ensures Covers(b, [x], x.End(), amount)
  {
    SingletonFree(x);
    forall a: int
      ensures Free([x], a) || x.End() <= a < x.End() + amount <==> b.base <= a < b.End()
    {
      assert Free([x], a) <==> x.base <= a < x.End();
    }
  }

  lemma TwoCover(x: Block, y: Block, b: Block, amount: nat)
    requires y.base == x.End() + amount && b == Block(x.base, x.size + amount + y.size)
    ensures Covers(b, [x] + [y], x.End(), amount)
  {
    SingletonFree(x);
    SingletonFree(y);
    SumConcat([x], [y]);
    forall a: int
      ensures Free([x] + [y], a) || x.End() <= a < x.End() + amount <==> b.base <= a < b.End()
    {
      FreeConcat([x], [y], a);
    }
  }

  lemma InsertLinks(next: map<int, int>, size: map<int, nat>, next': map<int, int>, size': map<int, nat>,
                    bs: seq<Block>, i: nat, k: nat, b: Block, amount: nat) returns (cs: seq<Block>)
    requires Canonical(bs) && Linked(next, size, bs) && k <= 1 && i + k <= |bs|
    requires 0 < b.base && HEADER <= amount && b.base + amount < WORD
    requires b.size == amount + if k == 1 then bs[i].size else 0
    requires 0 < i ==> bs[i - 1].End() < b.base
    requires if k == 1 then bs[i].base == b.base + amount
             else i < |bs| ==> b.base + amount < bs[i].base
    requires next' == next[b.base := AddrAt(bs, i + k, NULL)][RefBefore(bs, i) := b.base]
    requires size' == size[b.base := b.size]
    ensures Linked(next', size', cs) && Freed(bs, cs, b.base, amount)
  {
    cs := bs[..i] + [b] + bs[i + k..];
    assert i == 0 || Isolated(bs, i - 1);
    assert i == |bs| || Isolated(bs, i);
    assert i == 0 || Header(next, size, bs, i - 1, NULL);
    assert Below(bs[..i], b.base - 1) && Above(bs[i + k..], b.End());
    assert Header(next', size', [b], 0, AddrAt(bs, i + k, NULL));
    SpliceLinks(next, size, next', size', bs, i, k, [b]);
    InsertFrees(bs, i, k, b, amount);
  }

  lemma InsertFrees(bs: seq<Block>, i: nat, k: nat, b: Block, amount: nat)
    requires Canonical(bs) && k <= 1 && i + k <= |bs|
    requires 0 < b.base && HEADER <= amount && b.End() < WORD
    requires b.size == amount + if k == 1 then bs[i].size else 0
    requires Below(bs[..i], b.base - 1) && Above(bs[i + k..], b.End())
    requires k == 1 ==> bs[i].base == b.base + amount
    ensures Freed(bs, bs[..i] + [b] + bs[i + k..], b.base, amount)
  {
    if k == 1 {
      SingletonFree(bs[i]);
      assert bs[i..i + k] == [bs[i]];
    }
    ThreeParts(bs, i, k);
    MergeFrees(bs[..i], bs[i..i + k], bs[i + k..], b, b.base, amount);
  }

  /** Where the scan stops decides whether the region overlaps free memory and what it meets. */
  lemma FreeCases(bs: seq<Block>, i: nat, base: nat, amount: nat)
    requires Canonical(bs) && i <= |bs| && HEADER <= amount
    requires 0 < i ==> bs[i - 1].End() < base
    requires i < |bs| ==> base <= bs[i].End()
    ensures Overlaps(bs, base, amount)
       <==> i < |bs| && (if base == bs[i].End() then i + 1 < |bs| && bs[i + 1].base < base + amount
                         else bs[i].base < base + amount)
    ensures !Overlaps(bs, base, amount) ==>
      (MeetsOnlyNext(bs, base, amount) <==> i < |bs| && base != bs[i].End() && bs[i].base == base + amount)
  {
    assert i == 0 || Isolated(bs, i - 1);
    assert i == |bs| || Isolated(bs, i);
    assert i + 1 >= |bs| || Isolated(bs, i + 1);
  }

  lemma {:induction false} SumBelowWord(bs: seq<Block>)
    requires Canonical(bs)
    ensures bs != [] ==> Sum(bs) < bs[|bs| - 1].End()
  {
    if bs != [] {
      var n := |bs| - 1;
      CanonicalParts(bs, n);
      SumBelowWord(bs[..n]);
      SumSplit(bs, n);
      assert Isolated(bs, n);
    }
  }

  /** A count that got `extra` bytes too many is right only when there were none. */
  lemma CountIsRight(sum: nat, amount: nat, extra: nat)
    requires sum + amount < WORD && extra < WORD
    ensures Wrap(sum + (amount + extra)) == sum + amount <==> extra == 0
  {}

  lemma SumIsWrapped(before: nat, after: nat)
    requires after < WORD
    ensures Wrap(before - (before - after)) == after
  {}

  lemma TopIsApart(next: map<int, int>, size: map<int, nat>, bs: seq<Block>, top: nat)
    requires Canonical(bs) && Linked(next, size, bs)
    ensures Linked(next, size[TOP := top], bs)
  {
    ChainedKept(next, size, next, size[TOP := top], bs, NULL);
  }

  lemma SingletonFree(b: Block)
    ensures forall a: int :: Free([b], a) <==> b.base <= a < b.End()
    ensures Sum([b]) == b.size
  {
    assert [b][0] == b;
  }

  /** A region freed just below the only block: it merges forward, and is counted with that block. */
  lemma DoubleCountExample()
    ensures var bs := [Block(0x2000, 0x1000)];
      Canonical(bs) && !Overlaps(bs, 0x1000, 0x1000) && MeetsOnlyNext(bs, 0x1000, 0x1000)
  {
    var bs := [Block(0x2000, 0x1000)];
    assert Isolated(bs, 0);
    assert bs[0].base == 0x1000 + 0x1000;
  }

  /** The second block could serve the request, yet the first one is taken to contain it. */
  lemma FooledExample()
    ensures var bs := [Block(0x1000, 0x1000), Block(0x10000, 0x10000)];
      Canonical(bs) && Available(bs, 0x10000, 0x8000) && Fooled(bs, 0x10000, 0x8000)
  {
    var bs := [Block(0x1000, 0x1000), Block(0x10000, 0x10000)];
    assert Isolated(bs, 0) && Isolated(bs, 1);
    assert bs[1].base <= 0x10000 && 0x10000 + 0x8000 <= bs[1].End();
  }

  class MemPool {
    var next: map<int, int>
    var size: map<int, nat>
    ghost var blocks: seq<Block>

    ghost predicate Valid()
      reads this
    {
      Canonical(blocks) && Linked(next, size, blocks) && size[TOP] < WORD
    }

    /** The pool header counts exactly the free bytes. */
    ghost predicate Accounted()
      reads this
      requires TOP in size
    {
      size[TOP] == Sum(blocks)
    }

    constructor Init()
      ensures Valid() && blocks == [] && Accounted()
    {
      next, size := map[TOP := NULL], map[TOP := 0];
      blocks := [];
    }

    /** The found block p gives up its first bytes; what is left of it stays in the list. */
    method CutFront(ghost i: nat, pprev: int, p: int, amount: nat)
      requires Valid() && i < |blocks| && p == blocks[i].base && pprev == RefBefore(blocks, i)
      requires amount <= blocks[i].size
      modifies this
      ensures Valid() && blocks == Carve(old(blocks), i, p, amount)
      ensures size[TOP] == Wrap(old(size[TOP]) - Lost(old(blocks)[i], p, amount) - amount)
    {
      assert Header(next, size, blocks, i, NULL);
      var lsize := size[p] - amount;
      if lsize < HEADER {
        size := size[TOP := Wrap(size[TOP] - lsize)];
        next := next[pprev := next[p]];
      } else {
        var pnew := p + amount;
        next := next[pnew := next[p]];
        size := size[pnew := lsize];
        next := next[pprev := pnew];
      }
      size := size[TOP := Wrap(size[TOP] - amount)];
      WrapTwice(old(size[TOP]) - lsize, amount);
      blocks := CutFrontLinks(old(next), old(size), next, size, blocks, i, amount);
    }

    /** The first block that is large enough gives up its front. */
    method TakeFront(ghost i: nat, pprev: int, p: int, amount: nat)
      requires Valid() && i < |blocks| && amount <= blocks[i].size && forall j :: 0 <= j < i ==> blocks[j].size < amount
      requires p == blocks[i].base && pprev == RefBefore(blocks, i)
      modifies this
      ensures Valid() && FrontCut(old(blocks), i, p, amount, blocks) && (old(Accounted()) ==> Accounted())
      ensures size[TOP] == Wrap(old(size[TOP]) - (Sum(old(blocks)) - Sum(blocks)))
    {
      CarveSum(blocks, i, p, amount);
      CarveIsCut(blocks, i, p, amount);
      CutFront(i, pprev, p, amount);
      SumBelowWord(blocks);
      SumIsWrapped(Sum(old(blocks)), Sum(blocks));
    }

    method Alloc(amount: nat) returns (start: int)
      requires Valid() && amount < WORD
      modifies this
      ensures Valid()
      ensures start == NULL <==> forall j :: 0 <= j < |old(blocks)| ==> old(blocks)[j].size < amount
      ensures start == NULL ==> unchanged(this)
      ensures start != NULL ==>
        exists i :: FrontCut(old(blocks), i, start, amount, blocks)
      ensures old(Accounted()) ==> Accounted()
      ensures size[TOP] == Wrap(old(size[TOP]) - (Sum(old(blocks)) - Sum(blocks)))
    {
      var pprev, p := TOP, next[TOP];
      ghost var i := 0;
      while p != NULL
        invariant 0 <= i <= |blocks| && p == AddrAt(blocks, i, NULL) && pprev == RefBefore(blocks, i)
        invariant forall j :: 0 <= j < i ==> blocks[j].size < amount
        decreases |blocks| - i
      {
        assert Header(next, size, blocks, i, NULL);
        if size[p] >= amount {
          TakeFront(i, pprev, p, amount);
          return p;
        }
        pprev := p;
        p := next[p];
        i := i + 1;
      }
      return NULL;
    }

    /** Block p gives up [base, base + amount); the pieces on either side stay in the list if they
        can carry a header. Nothing is promised when the region sticks out of the block. */
    method CutAt(ghost i: nat, pprev: int, p: int, base: nat, amount: nat)
      requires Valid() && i < |blocks| && p == blocks[i].base && pprev == RefBefore(blocks, i)
      requires 0 < amount && p <= base && base + amount < WORD
      modifies this
      ensures base + amount <= old(blocks)[i].End() ==>
        && Valid() && blocks == Carve(old(blocks), i, base, amount)
        && size[TOP] == Wrap(old(size[TOP]) - Lost(old(blocks)[i], base, amount) - amount)
      ensures i == 0 && old(blocks)[0].End() < amount ==> !Intact(next, size)
    {
      assert Header(next, size, blocks, i, NULL);
      var end := Wrap(p + size[p]);
      assert end == blocks[i].End();
      var below, above;
      ghost var w1, w2;
      below, above, w1, w2 := CutWords(pprev, p, base, amount, end);
      size := size[TOP := Wrap(size[TOP] - below - above - amount)];
      if base + amount <= end {
        assert Wrap(end - (base + amount)) == end - (base + amount);
        KeepCut(Words(old(next), old(size)), w1, w2, i, base, amount);
      } else if i == 0 && end < amount {
        RunsPastEnd(next, size, if base - p < HEADER then base + amount else p, base + amount);
      }
    }

    /** The pieces on either side are linked in the place of the block, or dropped. */
    method CutWords(pprev: int, p: int, base: nat, amount: nat, end: nat) returns (below: nat, above: nat, ghost w1: Words, ghost w2: Words)
      requires p in next && TOP in size && TOP < p <= base
      modifies this`next, this`size
      ensures w1 == KeepBelow(Words(old(next), old(size)), pprev, p, base - p) && w2 == Words(next, size)
      ensures var q := if base - p < HEADER then pprev else p;
        q in w1.next && w2 == KeepAbove(w1, q, base + amount, Wrap(end - (base + amount)))
      ensures below == Sliver(base - p) && above == Sliver(Wrap(end - (base + amount))) && TOP in size && size[TOP] == old(size)[TOP]
    {
      var q;
      q, below := UnlinkBelow(pprev, p, base - p);
      w1 := Words(next, size);
      above := LinkAbove(q, base + amount, Wrap(end - (base + amount)));
      w2 := Words(next, size);
    }

    /** The words hold the list with the region cut out. */
    ghost method KeepCut(w: Words, w1: Words, w2: Words, i: nat, base: nat, amount: nat)
      requires i < |blocks| && Canonical(blocks) && Linked(w.next, w.size, blocks) && Header(w.next, w.size, blocks, i, NULL)
      requires 0 < amount && blocks[i].base <= base && base + amount <= blocks[i].End()
      requires w1 == KeepBelow(w, RefBefore(blocks, i), blocks[i].base, base - blocks[i].base)
      requires var q := if base - blocks[i].base < HEADER then RefBefore(blocks, i) else blocks[i].base;
        w2 == KeepAbove(w1, q, base + amount, blocks[i].End() - (base + amount))
      requires TOP in size && size[TOP] < WORD && next == w2.next && size == w2.size[TOP := size[TOP]]
      modifies `blocks
      ensures Valid() && blocks == Carve(old(blocks), i, base, amount)
    {
      blocks := CutAtLinks(w, w1, w2, blocks, i, base, amount, size[TOP]);
    }

    method UnlinkBelow(pprev: int, p: int, lsize: nat) returns (q: int, lost: nat)
      requires p in next
      modifies this`next, this`size
      ensures Words(next, size) == KeepBelow(Words(old(next), old(size)), pprev, p, lsize)
      ensures q == (if lsize < HEADER then pprev else p) && lost == Sliver(lsize)
    {
      if lsize < HEADER {
        next := next[pprev := next[p]];
        return pprev, lsize;
      }
      size := size[p := lsize];
      next := next[p := next[p]];
      next := next[pprev := p];
      return p, 0;
    }

    method LinkAbove(q: int, pnew: nat, lsize: nat) returns (lost: nat)
      requires q in next
      modifies this`next, this`size
      ensures Words(next, size) == KeepAbove(Words(old(next), old(size)), q, pnew, lsize)
      ensures lost == Sliver(lsize)
    {
      if lsize < HEADER {
        return lsize;
      }
      size := size[pnew := lsize];
      next := next[pnew := next[q]];
      next := next[q := pnew];
      return 0;
    }

    /** Takes exactly [base, base + amount) out of the pool, or answers -1 when no block contains it.
        The list survives a successful call if and only if the unsigned comparison was not fooled. */
    method AllocAddress(base: nat, amount: nat) returns (res: int)
      requires Valid() && 0 < amount && base + amount < WORD
      modifies this
      ensures res == 1 || res == -1
      ensures res == 1 <==> Available(old(blocks), base, amount) || Fooled(old(blocks), base, amount)
      ensures res == -1 ==> unchanged(this)
      ensures res == 1 ==> (Intact(next, size) <==> !Fooled(old(blocks), base, amount))
      ensures res == 1 && !Fooled(old(blocks), base, amount) ==>
        && Valid()
        && (exists i :: CutFrom(old(blocks), i, base, amount, blocks)) && (old(Accounted()) ==> Accounted())
        && size[TOP] == Wrap(old(size[TOP]) - (Sum(old(blocks)) - Sum(blocks)))
    {
      var pprev, p := TOP, next[TOP];
      ghost var i := 0;
      while p != NULL
        invariant 0 <= i <= |blocks| && p == AddrAt(blocks, i, NULL) && pprev == RefBefore(blocks, i)
        invariant forall j :: 0 <= j < i ==> !(blocks[j].base <= base && base + amount <= blocks[j].End())
        invariant i != 0 ==> !Fooled(blocks, base, amount)
        invariant unchanged(this)
        decreases |blocks| - i
      {
        assert Header(next, size, blocks, i, NULL);
        var start := p;
        var end := Wrap(start + size[p]);
        FitTest(blocks, i, base, amount);
        if Wrap(end - amount) >= base && base >= start {
          TakeRegion(i, pprev, p, base, amount);
          return 1;
        }
        pprev := p;
        p := next[p];
        i := i + 1;
      }
      return -1;
    }

    /** The block that the comparison chose, and was fooled about or not, gives up the region. */
    method TakeRegion(ghost i: nat, pprev: int, p: int, base: nat, amount: nat)
      requires Valid() && i < |blocks| && p == blocks[i].base && pprev == RefBefore(blocks, i)
      requires 0 < amount && p <= base && base + amount < WORD
      requires base + amount <= blocks[i].End() || (i == 0 && Fooled(blocks, base, amount))
      requires i != 0 ==> !Fooled(blocks, base, amount)
      modifies this
      ensures Intact(next, size) <==> !Fooled(old(blocks), base, amount)
      ensures !Fooled(old(blocks), base, amount) ==>
        && Valid() && CutFrom(old(blocks), i, base, amount, blocks) && (old(Accounted()) ==> Accounted())
        && size[TOP] == Wrap(old(size[TOP]) - (Sum(old(blocks)) - Sum(blocks)))
    {
      if !Fooled(blocks, base, amount) {
        CarveSum(blocks, i, base, amount);
        CarveIsCut(blocks, i, base, amount);
      }
      CutAt(i, pprev, p, base, amount);
      if !Fooled(old(blocks), base, amount) {
        SumBelowWord(blocks);
        SumIsWrapped(Sum(old(blocks)), Sum(blocks));
      }
    }

    /** Block p ends where the region starts: it grows, and swallows the next block if they now meet. */
    method GrowBlock(ghost i: nat, p: int, base: nat, amount: nat) returns (aborted: bool)
      requires Valid() && i < |blocks| && p == blocks[i].base && blocks[i].End() == base
      requires 0 < amount && base + amount < WORD
      modifies this
      ensures aborted <==> i + 1 < |old(blocks)| && old(blocks)[i + 1].base < base + amount
      ensures aborted ==> unchanged(this)
      ensures !aborted ==> Valid() && size[TOP] == old(size[TOP]) && Freed(old(blocks), blocks, base, amount)
    {
      assert Header(next, size, blocks, i, NULL) && Isolated(blocks, i);
      var pnew := next[p];
      ghost var k := 1;
      if pnew == NULL {
        size := size[p := size[p] + amount];
      } else if base + amount == pnew {
        assert Header(next, size, blocks, i + 1, NULL);
        size := size[p := size[p] + amount + size[pnew]];
        next := next[p := next[pnew]];
        k := 2;
      } else if base + amount < pnew {
        size := size[p := size[p] + amount];
      } else {
        return true;
      }
      blocks := GrowLinks(old(next), old(size), next, size, blocks, i, k, amount);
      return false;
    }

    /** A header at the start of the region, before block i; it swallows that block if they meet. */
    method InsertBlock(ghost i: nat, pprev: int, p: int, base: nat, amount: nat) returns (total: nat)
      requires Valid() && i <= |blocks| && p == AddrAt(blocks, i, NULL) && pprev == RefBefore(blocks, i)
      requires 0 < base && HEADER <= amount && base + amount < WORD
      requires 0 < i ==> blocks[i - 1].End() < base
      requires i < |blocks| ==> base + amount <= blocks[i].base
      modifies this
      ensures Valid() && size[TOP] == old(size[TOP]) && Freed(old(blocks), blocks, base, amount)
      ensures total == amount + if i < |old(blocks)| && old(blocks)[i].base == base + amount
                                then old(blocks)[i].size else 0
    {
      assert i < |blocks| ==> Header(next, size, blocks, i, NULL);
      ghost var k := 0;
      total := amount;
      var follow := p;
      if base + amount == p {
        total := total + size[p];
        follow := next[p];
        k := 1;
      }
      next := next[base := follow];
      size := size[base := total];
      next := next[pprev := base];
      blocks := InsertLinks(old(next), old(size), next, size, blocks, i, k, Block(base, total), amount);
    }

    /** Gives [base, base + amount) back to the pool, or stops the system when part of it is free
        already. The byte count is right if and only if the region does not merge with the block
        above it alone: in that case the size of that block is counted a second time. */
    method Free(base: nat, amount: nat) returns (aborted: bool)
      requires Valid() && 0 < base && 8 <= amount && base + amount < WORD
      modifies this
      ensures aborted <==> Overlaps(old(blocks), base, amount)
      ensures aborted ==> unchanged(this)
      ensures !aborted ==> Valid() && Freed(old(blocks), blocks, base, amount)
      ensures !aborted && !MeetsOnlyNext(old(blocks), base, amount) ==> size[TOP] == Wrap(old(size[TOP]) + amount)
      ensures !aborted && old(Accounted()) ==> (Accounted() <==> !MeetsOnlyNext(old(blocks), base, amount))
    {
      var pprev, p := TOP, next[TOP];
      ghost var i := 0;
      while p != NULL
        invariant 0 <= i <= |blocks| && p == AddrAt(blocks, i, NULL) && pprev == RefBefore(blocks, i)
        invariant i != 0 ==> blocks[i - 1].End() < base
        decreases |blocks| - i
      {
        assert Header(next, size, blocks, i, NULL);
        if base <= p + size[p] {
          break;
        }
        pprev := p;
        p := next[p];
        i := i + 1;
      }
      var total;
      aborted, total := PlaceRegion(i, pprev, p, base, amount);
      if aborted {
        return;
      }
      SumBelowWord(blocks);
      CountIsRight(Sum(old(blocks)), amount, total - amount);
      TopIsApart(next, size, blocks, Wrap(size[TOP] + total));
      size := size[TOP := Wrap(size[TOP] + total)];
    }

    /** The region goes into the list where the scan has stopped; `total` is what is going to be counted. */
    method PlaceRegion(ghost i: nat, pprev: int, p: int, base: nat, amount: nat) returns (aborted: bool, total: nat)
      requires Valid() && 0 < base && HEADER <= amount && base + amount < WORD
      requires i <= |blocks| && p == AddrAt(blocks, i, NULL) && pprev == RefBefore(blocks, i)
      requires (0 < i ==> blocks[i - 1].End() < base) && (i < |blocks| ==> base <= blocks[i].End())
      modifies this
      ensures aborted <==> Overlaps(old(blocks), base, amount)
      ensures aborted ==> unchanged(this)
      ensures !aborted ==> Valid() && Freed(old(blocks), blocks, base, amount) && size[TOP] == old(size[TOP])
      ensures !aborted ==> amount <= total < amount + WORD && (total == amount <==> !MeetsOnlyNext(old(blocks), base, amount))
    {
      FreeCases(blocks, i, base, amount);
      assert i < |blocks| ==> Header(next, size, blocks, i, NULL);
      total := amount;
      if p != NULL && base == p + size[p] {
        aborted := GrowBlock(i, p, base, amount);
      } else if p != NULL && p < base + amount {
        aborted := true;
      } else {
        total := InsertBlock(i, pprev, p, base, amount);
        aborted := false;
      }
    }
  }
}

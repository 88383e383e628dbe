/** Where free chunks are kept: top, the designated victim, or the bin of their size. */
module Placement {
  import opened BinIndex
  import opened BitWords
  import opened SizeTrie
  import opened Links
  import opened Bins
  import opened SmallBins
  import opened BestFit
  import opened Tiles

  /** The chunks of the segment from base to the fence, with top and the designated victim and their sizes. */
  datatype Segment = Segment(chunks: set<nat>, base: nat, fence: nat, top: nat, topsize: nat, dv: nat, dvsize: nat)

  ghost predicate InBins(small: seq<seq<nat>>, trees: seq<Tree>, x: nat) {
    InTrees(trees, x) || InLists(small, x)
  }

  lemma TreesAfterInsert(trees: seq<Tree>, i: nat, low: nat, bits: nat, s: nat, x: nat, y: nat)
    requires i < |trees|
    ensures InTrees(trees[i := Insert(trees[i], low, bits, s, x)], y) <==> InTrees(trees, y) || y == x
  {
    var trees' := trees[i := Insert(trees[i], low, bits, s, x)];
    InsertCount(trees[i], low, bits, s, x, y);
    assert 0 < Count(trees'[i], y) <==> 0 < Count(trees[i], y) || y == x;
    if InTrees(trees', y) {
      var j :| 0 <= j < |trees'| && 0 < Count(trees'[j], y);
      assert j == i || 0 < Count(trees[j], y);
    }
    if InTrees(trees, y) {
      var j :| 0 <= j < |trees| && 0 < Count(trees[j], y);
      assert 0 < Count(trees'[j], y);
    }
  }

  lemma TreesAfterRemove(b: BinState, size: Mem, i: nat, x: nat, y: nat)
    requires BinsOk(b, size) && i < NTREEBINS && 0 < Count(b.trees[i], x)
    ensures InTrees(b.trees[i := Remove(b.trees[i], x)], y) <==> InTrees(b.trees, y) && y != x
    ensures !InLists(b.small, x)
  {
    var trees' := b.trees[i := Remove(b.trees[i], x)];
    assert TreeBinOk(b.w, size, b.treebins[i], b.treemap, b.trees[i], i);
    RemoveCount(b.trees[i], x, y);
    assert Count(b.trees[i], x) <= 1;
    forall j | 0 <= j < NTREEBINS
      ensures 0 < Count(trees'[j], y) <==> 0 < Count(b.trees[j], y) && y != x
      ensures x !in b.small[j]
    {
      NotElsewhere(b, size, i, x, j);
    }
  }

  lemma ListsAfterPush(small: seq<seq<nat>>, i: nat, x: nat, y: nat)
    requires i < |small|
    ensures InLists(small[i := [x] + small[i]], y) <==> InLists(small, y) || y == x
  {
    var small' := small[i := [x] + small[i]];
    assert y in small'[i] <==> y in small[i] || y == x;
    if InLists(small', y) {
      var j :| 0 <= j < |small'| && y in small'[j];
      assert j == i || y in small[j];
    }
    if InLists(small, y) {
      var j :| 0 <= j < |small| && y in small[j];
      assert y in small'[j];
    }
  }

  lemma ListsAfterPop(b: BinState, size: Mem, i: nat, k: nat, y: nat)
    requires BinsOk(b, size) && i < NSMALLBINS && k < |b.small[i]|
    ensures InLists(b.small[i := b.small[i][..k] + b.small[i][k + 1..]], y) <==> InLists(b.small, y) && y != b.small[i][k]
    ensures !InTrees(b.trees, b.small[i][k])
  {
    var x, small' := b.small[i][k], b.small[i := b.small[i][..k] + b.small[i][k + 1..]];
    assert SmallBinOk(b.w, size, b.smallmap, b.small[i], i);
    PoppedMembers(b.small[i], k, y);
    forall j | 0 <= j < NSMALLBINS
      ensures y in small'[j] <==> y in b.small[j] && y != x
      ensures Count(b.trees[j], x) == 0
    {
      ListedNotElsewhere(b, size, i, x, j);
    }
  }

  lemma PoppedMembers(xs: seq<nat>, k: nat, y: nat)
    requires NoRepeats(xs) && k < |xs|
    ensures y in xs[..k] + xs[k + 1..] <==> y in xs && y != xs[k]
  {
    if y in xs && y != xs[k] {
      var j :| 0 <= j < |xs| && xs[j] == y;
      assert j < k ==> xs[..k][j] == y;
      assert j > k ==> xs[k + 1..][j - k - 1] == y;
    }
  }

  /** The size of a binned chunk says which bin it is in. */
  lemma BinBySize(b: BinState, size: Mem, x: nat)
    requires BinsOk(b, size) && InBins(b.small, b.trees, x)
    ensures size.At(x) % 8 == 0 && FIRST_CHUNK <= x
    ensures size.At(x) < MIN_LARGE_SIZE ==> !InTrees(b.trees, x) && x in b.small[size.At(x) / 8]
    ensures MIN_LARGE_SIZE <= size.At(x) ==>
      && size.At(x) < WORD && TreeIndex(size.At(x)) < NTREEBINS
      && !InLists(b.small, x) && 0 < Count(b.trees[TreeIndex(size.At(x))], x)
  {
    forall i | 0 <= i < NTREEBINS
      ensures 0 < Count(b.trees[i], x) ==>
        && FIRST_CHUNK <= x && MIN_LARGE_SIZE <= size.At(x) < WORD
        && size.At(x) % 8 == 0 && TreeIndex(size.At(x)) == i
      ensures x in b.small[i] ==> FIRST_CHUNK <= x && size.At(x) == 8 * i
    {
      assert TreeBinOk(b.w, size, b.treebins[i], b.treemap, b.trees[i], i);
      assert SmallBinOk(b.w, size, b.smallmap, b.small[i], i);
      if 0 < Count(b.trees[i], x) {
        SizeTellsBin(b.w, size, b.treebins[i], TreeBinAt(i), b.trees[i], i, x);
      }
    }
  }

  /** Sizes written elsewhere do not disturb the bins. */
  lemma BinsKept(b: BinState, size: Mem, size': Mem)
    requires BinsOk(b, size) && forall x :: InBins(b.small, b.trees, x) ==> size'.At(x) == size.At(x)
    ensures BinsOk(b, size')
  {
    forall i | 0 <= i < NTREEBINS
      ensures TreeBinOk(b.w, size', b.treebins[i], b.treemap, b.trees[i], i)
      ensures SmallBinOk(b.w, size', b.smallmap, b.small[i], i)
    {
      assert TreeBinOk(b.w, size, b.treebins[i], b.treemap, b.trees[i], i);
      assert SmallBinOk(b.w, size, b.smallmap, b.small[i], i);
      forall y | 0 < Count(b.trees[i], y) || y in b.small[i]
        ensures size'.At(y) == size.At(y)
      {
        assert InBins(b.small, b.trees, y);
      }
      TreeBinFrame(b.w, b.w, size, size', b.treebins[i], b.treemap, b.treemap, b.trees[i], i);
      SmallBinFrame(b.w, b.w, size, size', b.smallmap, b.smallmap, b.small[i], i);
    }
  }

  /** The bins hold the free chunks except top, the designated victim and those in `out`. */
  ghost predicate Bagged(h: Tags, g: Segment, b: BinState, out: set<nat>) {
    forall c: nat :: InBins(b.small, b.trees, c) <==> Free(h, g.chunks, g.fence, c) && c != g.top && c != g.dv && c !in out
  }

  /** The designated victim and top, with their sizes kept beside them. */
  ghost predicate Aside(h: Tags, g: Segment) {
    && (g.dv == 0 <==> g.dvsize == 0) && (g.dv != 0 ==> Free(h, g.chunks, g.fence, g.dv) && g.dv != g.top && h.size.At(g.dv) == g.dvsize)
    && (g.top == 0 <==> g.topsize == 0) && (g.top != 0 ==> h.size.At(g.top) == g.topsize)
  }

  /** The heap is in order but for the free chunks in `out`, which are in no bin. */
  ghost predicate InOrder(b: BinState, h: Tags, g: Segment, out: set<nat>) {
    BinsOk(b, h.size) && Tiled(h, g.chunks, g.base, g.fence, g.top) && Aside(h, g) && Bagged(h, g, b, out)
  }

  /** What is in p .. n and free is already out of the bins. */
  ghost predicate EmptiedOut(h: Tags, g: Segment, p: nat, n: nat, out: set<nat>) {
    forall c :: c in g.chunks && p <= c < n ==> c in h.cinuse || c == g.top || c == g.dv || c in out
  }

  /** All of p .. n has become one free chunk, which is outside the bins: top or the designated victim have joined
      if they were in it, and it may have become either. */
  ghost predicate Merged(h: Tags, g: Segment, h': Tags, g': Segment, p: nat, n: nat) {
    && MergedTags(h, h', p, n) && MergedEnd(h, h', g.fence, g.top, g'.top, p, n)
    && g'.chunks == Outside(g.chunks, p, n) && g'.base == g.base && g'.fence == g.fence
    && g'.topsize == (if p <= g.top < n then n - p else g.topsize)
    && (if p <= g.dv < n then g'.dv == 0 || g'.dv == p else g'.dv == g.dv) && (g'.dv != 0 ==> g'.dv != g'.top)
    && g'.dvsize == if g'.dv == 0 then 0 else if g'.dv == p then n - p else g.dvsize
  }

  lemma MergedBags(b: BinState, h: Tags, g: Segment, h': Tags, g': Segment, p: nat, n: nat, out: set<nat>)
    requires BinsOk(b, h.size) && Tiled(h, g.chunks, g.base, g.fence, g.top) && p in g.chunks && n in g.chunks
    requires Bagged(h, g, b, out) && EmptiedOut(h, g, p, n, out) && forall c :: c in out ==> p <= c < n
    requires Merged(h, g, h', g', p, n)
    ensures BinsOk(b, h'.size) && Bagged(h', g', b, if p == g'.top || p == g'.dv then {} else {p}) && !InBins(b.small, b.trees, p)
  {
    forall c: nat
      ensures InBins(b.small, b.trees, c) <==> Free(h', g'.chunks, g'.fence, c) && c != g'.top && c != g'.dv && c != p
    {
      assert c in g'.chunks <==> c in g.chunks && !(p < c < n);
    }
    BinsKept(b, h.size, h'.size);
  }

  /** p .. n is made of whole chunks, of which q is the only one in use. */
  ghost predicate Region(h: Tags, g: Segment, q: nat, p: nat, n: nat) {
    && p in g.chunks && p in h.pinuse && n in g.chunks && p <= q < n && Live(h, g.chunks, g.fence, q)
    && (forall c :: c in g.chunks && p <= c < n && c in h.cinuse ==> c == q)
  }

  /** A free chunk behind the region joins it. */
  lemma RegionGrows(h: Tags, g: Segment, q: nat, p: nat, n: nat,
                    out: set<nat>)
    requires Tiled(h, g.chunks, g.base, g.fence, g.top) && Region(h, g, q, p, n) && Free(h, g.chunks, g.fence, n)
    requires EmptiedOut(h, g, p, n, out)
    ensures var n' := n + h.size.At(n);
      && n < n' && Region(h, g, q, p, n')
      && n' !in h.pinuse && (if n == g.top then n' == g.fence else n' in h.cinuse)
      && (forall c :: c in g.chunks && p <= c < n' ==> p <= c < n || c == n)
      && EmptiedOut(h, g, p, n', out + {n})
      && (n == g.top || n == g.dv ==> EmptiedOut(h, g, p, n', out))
  {
    assert Tile(h, g.chunks, g.fence, g.top, n);
    assert Gap(g.chunks, n, n + h.size.At(n));
    if n != g.top && n + h.size.At(n) != g.fence {
      assert Tile(h, g.chunks, g.fence, g.top, n + h.size.At(n));
    }
  }

  /** The region a chunk in use starts with: itself, and the free chunk before it if there is one. */
  lemma RegionStarts(h: Tags, g: Segment, q: nat) returns (p: nat)
    requires Tiled(h, g.chunks, g.base, g.fence, g.top) && Live(h, g.chunks, g.fence, q)
    ensures q !in h.pinuse ==> h.foot.At(q) <= q && h.size.At(p) == h.foot.At(q) && Free(h, g.chunks, g.fence, p) && p != g.top
    ensures p == if q in h.pinuse then q else q - h.foot.At(q)
    ensures var n := q + h.size.At(q);
      && Region(h, g, q, p, n) && n in h.pinuse && (n == g.fence ==> n in h.cinuse)
      && (forall c :: c in g.chunks && p <= c < n ==> c == p || c == q)
  {
    assert g.top != 0 ==> Tile(h, g.chunks, g.fence, g.top, g.top);
    assert Tile(h, g.chunks, g.fence, g.top, q) && Gap(g.chunks, q, q + h.size.At(q));
    p := q;
    if q !in h.pinuse {
      Predecessor(h, g.chunks, g.base, g.fence, g.top, q);
      p := q - h.foot.At(q);
      assert Tile(h, g.chunks, g.fence, g.top, p) && Gap(g.chunks, p, q);
    }
  }

  /** Chunk q is being freed: all of p .. n is to become one free chunk, and what was free in it is out of the bins. */
  ghost predicate Freeing(b: BinState, h: Tags, g: Segment, q: nat, p: nat, n: nat, out: set<nat>) {
    && InOrder(b, h, g, out) && Region(h, g, q, p, n) && !(p <= g.top < n) && !(p < g.dv < n)
    && EmptiedOut(h, g, p, n, out) && (forall c :: c in out ==> p <= c < n)
  }

  /** Chunk q is no longer in use, all others in use are as they were. */
  ghost predicate Released(h: Tags, g: Segment, h': Tags, g': Segment, q: nat) {
    && (forall c: nat :: Live(h', g'.chunks, g'.fence, c) <==> Live(h, g.chunks, g.fence, c) && c != q)
    && (forall c: nat :: Live(h', g'.chunks, g'.fence, c) ==> h'.size.At(c) == h.size.At(c))
  }

  /** What becomes of top and the designated victim when p .. n, with the chunk at n if that is free, becomes
      one free chunk. */
  ghost predicate Placed(h: Tags, g: Segment, g': Segment, p: int, n: nat) {
    if n !in h.cinuse && n == g.top then
      && g'.top == p && g'.topsize == g.topsize + (n - p)
      && g'.dv == (if p == g.dv then 0 else g.dv) && g'.dvsize == (if p == g.dv then 0 else g.dvsize)
    else
      && g'.top == g.top && g'.topsize == g.topsize
      && if n !in h.cinuse && n == g.dv then g'.dv == p && g'.dvsize == g.dvsize + (n - p)
         else
           && g'.dv == g.dv
           && g'.dvsize == if p != g.dv then g.dvsize else n - p + if n in h.cinuse then 0 else h.size.At(n)
  }

  /** The same when chunk q is freed: the free chunk before it, found through the foot, joins. */
  ghost predicate Folded(h: Tags, g: Segment, g': Segment, q: nat) {
    Placed(h, g, g', if q in h.pinuse then q else q - h.foot.At(q), q + h.size.At(q))
  }

  /** The region of chunk q, with the free chunk before it out of its bin. */
  lemma FreeingStarts(b: BinState, b': BinState, h: Tags, g: Segment, q: nat, p: nat, out: set<nat>)
    requires InOrder(b, h, g, {}) && Live(h, g.chunks, g.fence, q) && p == (if q in h.pinuse then q else q - h.foot.At(q))
    requires out == (if q in h.pinuse || p == g.dv then {} else {p}) && BinsOk(b', h.size)
    requires forall y: nat :: InBins(b'.small, b'.trees, y) <==> InBins(b.small, b.trees, y) && y !in out
    ensures Freeing(b', h, g, q, p, q + h.size.At(q), out)
  {
    var p' := RegionStarts(h, g, q);
  }

  /** The binned chunk behind the region has left its bin. */
  lemma FreeingGrows(b: BinState, b': BinState, h: Tags, g: Segment, q: nat, p: nat, n: nat, out: set<nat>)
    requires Freeing(b, h, g, q, p, n, out) && Free(h, g.chunks, g.fence, n) && n != g.top && n != g.dv && BinsOk(b', h.size)
    requires forall y: nat :: InBins(b'.small, b'.trees, y) <==> InBins(b.small, b.trees, y) && y != n
    ensures var n' := n + h.size.At(n);
      Freeing(b', h, g, q, p, n', out + {n}) && n' in h.cinuse && n' !in h.pinuse
  {
    RegionGrows(h, g, q, p, n, out);
  }

  lemma AbsorbedTags(h: Tags, h': Tags, p: nat, s: nat)
    requires h'.size == h.size.Set(p, s) && h'.foot == h.foot.Set(p + s, s) && 0 < s
    requires h'.cinuse == h.cinuse - {p} && h'.pinuse == h.pinuse + {p} && p + s !in h.pinuse
    ensures MergedTags(h, h', p, p + s)
  {}

  /** The bytes of a freed chunk are in a free chunk at least as large, besides top unless it was before top. */
  lemma FreedIsFree(h: Tags, g: Segment, h': Tags, g': Segment, q: nat) returns (c: nat)
    requires Tiled(h, g.chunks, g.base, g.fence, g.top) && Tiled(h', g'.chunks, g'.base, g'.fence, g'.top)
    requires Live(h, g.chunks, g.fence, q) && Released(h, g, h', g', q) && g'.base == g.base && g'.fence == g.fence
    requires g'.top == g.top != q + h.size.At(q)
    ensures Free(h', g'.chunks, g'.fence, c) && c != g'.top && c <= q && q + h.size.At(q) <= c + h'.size.At(c)
  {
    assert Tile(h, g.chunks, g.fence, g.top, q) && Gap(g.chunks, q, q + h.size.At(q));
    if g.top != 0 {
      assert Tile(h, g.chunks, g.fence, g.top, g.top) && Gap(g.chunks, g.top, g.fence);
    }
    Coverage(h', g'.chunks, g'.base, g'.fence, g'.top, q);
    c :| Covers(h', g'.chunks, g'.fence, c, q);
    assert Tile(h', g'.chunks, g'.fence, g'.top, c);
    if Live(h', g'.chunks, g'.fence, c) {
      assert Covers(h, g.chunks, g.fence, c, q) && Covers(h, g.chunks, g.fence, q, q);
      Coverage(h, g.chunks, g.base, g.fence, g.top, q);
    }
    if c != g'.top && c + h'.size.At(c) != g'.fence {
      assert Live(h', g'.chunks, g'.fence, c + h'.size.At(c));
    }
  }

  lemma MergedLive(h: Tags, g: Segment, h': Tags, g': Segment, q: nat, p: nat, n: nat)
    requires Region(h, g, q, p, n) && Merged(h, g, h', g', p, n)
    ensures Released(h, g, h', g', q)
  {}

  /** Everything about the merged state but the bin of the merged chunk. */
  lemma MergedHeap(b: BinState, h: Tags, g: Segment, h': Tags, g': Segment, q: nat, p: nat, n: nat, out: set<nat>)
    requires InOrder(b, h, g, out) && Region(h, g, q, p, n) && EmptiedOut(h, g, p, n, out)
    requires Merged(h, g, h', g', p, n) && forall c :: c in out ==> p <= c < n
    ensures InOrder(b, h', g', if p == g'.top || p == g'.dv then {} else {p}) && Released(h, g, h', g', q)
    ensures !InBins(b.small, b.trees, p) && FIRST_CHUNK <= p && p % 8 == 0 && n < WORD && (n - p) % 8 == 0
    ensures h'.size.At(p) == n - p && Free(h', g'.chunks, g'.fence, p)
  {
    MergedTiles(h, h', g.chunks, g.base, g.fence, g.top, g'.top, p, n);
    MergedBags(b, h, g, h', g', p, n, out);
    MergedLive(h, g, h', g', q, p, n);
    MergedAside(h, g, h', g', p, n);
    DifferenceOfMultiples(p, n);
  }

  lemma MergedAside(h: Tags, g: Segment, h': Tags, g': Segment, p: nat, n: nat)
    requires Aside(h, g) && Merged(h, g, h', g', p, n) && p in g.chunks && n in g.chunks && p != 0 && n <= g.fence
    requires g.top != 0 ==> g.top in g.chunks
    ensures Aside(h', g')
  {}

  /** The region before top becomes part of top. */
  lemma MergedTop(b: BinState, h: Tags, g: Segment, h': Tags, g': Segment, q: nat, p: nat, out: set<nat>)
    requires Freeing(b, h, g, q, p, g.top, out) && g.top != 0
    requires h'.size == h.size.Set(p, g'.topsize) && h'.foot == h.foot && h'.cinuse == h.cinuse - {p} && h'.pinuse == h.pinuse + {p}
    requires g'.chunks == Outside(g.chunks, p, g.fence) && g'.base == g.base && g'.fence == g.fence
    requires g'.top == p && g'.topsize == g.topsize + (g.top - p)
    requires g'.dv == (if p == g.dv then 0 else g.dv) && g'.dvsize == (if p == g.dv then 0 else g.dvsize)
    ensures InOrder(b, h', g', {}) && Released(h, g, h', g', q) && Placed(h, g, g', p, g.top)
  {
    RegionGrows(h, g, q, p, g.top, out);
    MergedHeap(b, h, g, h', g', q, p, g.fence, out);
  }

  /** The region before the designated victim becomes part of it. */
  lemma MergedDv(b: BinState, h: Tags, g: Segment, h': Tags, g': Segment, q: nat, p: nat, out: set<nat>)
    requires Freeing(b, h, g, q, p, g.dv, out) && g.dv != 0
    requires h'.size == h.size.Set(p, g'.dvsize) && h'.foot == h.foot.Set(p + g'.dvsize, g'.dvsize)
    requires h'.cinuse == h.cinuse - {p} && h'.pinuse == h.pinuse + {p}
    requires g'.chunks == Outside(g.chunks, p, g.dv + g.dvsize) && g'.base == g.base && g'.fence == g.fence
    requires g'.top == g.top && g'.topsize == g.topsize && g'.dv == p && g'.dvsize == g.dvsize + (g.dv - p)
    ensures InOrder(b, h', g', {}) && Released(h, g, h', g', q) && Placed(h, g, g', p, g.dv)
  {
    RegionGrows(h, g, q, p, g.dv, out);
    MergedHeap(b, h, g, h', g', q, p, g.dv + g.dvsize, out);
  }

  lemma DifferenceOfMultiples(a: nat, b: nat)
    ensures a % 8 == 0 && b % 8 == 0 && a <= b ==> (b - a) % 8 == 0
  {}

  /** Free chunk p, out of the bins, has been taken whole. */
  lemma TakenHeap(b: BinState, h: Tags, g: Segment, h': Tags, p: nat)
    requires InOrder(b, h, g, {p}) && Free(h, g.chunks, g.fence, p) && p != g.top && p != g.dv
    requires TakenTags(h, h', p, h.size.At(p))
    ensures InOrder(b, h', g, {})
    ensures forall c: nat :: Live(h', g.chunks, g.fence, c) <==> Live(h, g.chunks, g.fence, c) || c == p
  {
    TakenTiles(h, h', g.chunks, g.base, g.fence, g.top, p);
    BinsKept(b, h.size, h'.size);
  }

  /** Chunk p has been handed out with at least nb bytes and less than a chunk more; the other chunks in use are
      as they were. */
  ghost predicate Granted(h: Tags, g: Segment, h': Tags, g': Segment, p: nat, nb: nat, mark: nat) {
    && Free(h, g.chunks, g.fence, p)
    && nb <= h'.size.At(p) < nb + MIN_CHUNK_SIZE && h'.size.At(p) <= h.size.At(p) && h'.foot.At(p + h'.size.At(p)) == mark
    && (forall c: nat :: Live(h', g'.chunks, g'.fence, c) <==> Live(h, g.chunks, g.fence, c) || c == p)
    && (forall c: nat :: Live(h, g.chunks, g.fence, c) ==> c != p && h'.size.At(c) == h.size.At(c))
  }

  /** What becomes of top and the designated victim when nb bytes of chunk p of size s are handed out: a remainder
      becomes the designated victim if the request is small or p was it before. */
  ghost predicate Served(small: bool, g: Segment, g': Segment, p: int, nb: nat, s: nat) {
    && g'.top == g.top && g'.topsize == g.topsize
    && if nb + MIN_CHUNK_SIZE <= s && (small || p == g.dv) then g'.dv == p + nb && g'.dvsize == s - nb
       else if p == g.dv then g'.dv == 0 && g'.dvsize == 0
       else g'.dv == g.dv && g'.dvsize == g.dvsize
  }

  /** Free chunk p, out of the bins, has been split; what is left of it is out of the bins. */
  lemma SplitHeap(b: BinState, h: Tags, g: Segment, h': Tags, g': Segment, p: nat, nb: nat)
    requires InOrder(b, h, g, {p}) && Free(h, g.chunks, g.fence, p) && p != g.top && p != g.dv
    requires MIN_CHUNK_SIZE <= nb && nb % 8 == 0 && nb + MIN_CHUNK_SIZE <= h.size.At(p)
    requires SplitTags(h, h', p, nb, h.size.At(p))
    requires g' == g.(chunks := g.chunks + {p + nb})
    ensures InOrder(b, h', g', {p + nb}) && Granted(h, g, h', g', p, nb, h'.foot.At(p + nb))
    ensures var r := p + nb;
      && Free(h', g'.chunks, g'.fence, r) && r != g'.top && r != g'.dv && !InBins(b.small, b.trees, r) && FIRST_CHUNK <= r
      && h'.size.At(r) == h.size.At(p) - nb && h'.size.At(r) < WORD && h'.size.At(r) % 8 == 0
  {
    SplitTiles(h, h', g.chunks, g.base, g.fence, g.top, p, nb);
    BinsKept(b, h.size, h'.size);
    SizeOfChunk(h, g, p);
    DifferenceOfMultiples(nb, h.size.At(p));
    SplitGranted(h, g, h', g', p, nb);
  }

  lemma SplitGranted(h: Tags, g: Segment, h': Tags, g': Segment, p: nat, nb: nat)
    requires Tiled(h, g.chunks, g.base, g.fence, g.top) && Free(h, g.chunks, g.fence, p)
    requires 0 < nb < h.size.At(p) && SplitTags(h, h', p, nb, h.size.At(p))
    requires g' == g.(chunks := g.chunks + {p + nb})
    ensures Granted(h, g, h', g', p, nb, h'.foot.At(p + nb))
  {
    assert Tile(h, g.chunks, g.fence, g.top, p);
    assert Gap(g.chunks, p, p + h.size.At(p));
  }

  /** The designated victim has been split, and the rest of it is the designated victim. */
  lemma SplitDv(b: BinState, h: Tags, g: Segment, h': Tags, g': Segment, nb: nat)
    requires InOrder(b, h, g, {}) && g.dv != 0 && MIN_CHUNK_SIZE <= nb && nb % 8 == 0 && nb + MIN_CHUNK_SIZE <= g.dvsize
    requires SplitTags(h, h', g.dv, nb, g.dvsize)
    requires g'.chunks == g.chunks + {g.dv + nb} && g'.base == g.base && g'.fence == g.fence
    requires g'.top == g.top && g'.topsize == g.topsize && g'.dv == g.dv + nb && g'.dvsize == g.dvsize - nb
    ensures InOrder(b, h', g', {}) && Granted(h, g, h', g', g.dv, nb, h'.foot.At(g.dv + nb))
  {
    var g1 := g'.(dv := 0, dvsize := 0);
    SplitHeap(b, h, g.(dv := 0, dvsize := 0), h', g1, g.dv, nb);
    RestIsDv(b, h', g1, g.dv + nb);
  }

  lemma RestIsDv(b: BinState, h: Tags, g: Segment, r: nat)
    requires InOrder(b, h, g, {r}) && Free(h, g.chunks, g.fence, r) && r != g.top && g.dv == 0 && r != 0 && h.size.At(r) != 0
    ensures InOrder(b, h, g.(dv := r, dvsize := h.size.At(r)), {})
  {}

  /** A request for a chunk of nb bytes gets chunk p. It is the designated victim if that fits and, for a small request,
      no small bin has a near fit, or, for a large one, nothing smaller fits; else it is the smallest fit of the bins. */
  ghost predicate Answered(small: bool, h: Tags, g: Segment, h': Tags, g': Segment, p: nat, nb: nat, mark: nat) {
    && Granted(h, g, h', g', p, nb, mark) && Served(small, g, g', p, nb, h.size.At(p))
    && ((small && p == g.dv) || SmallestFit(h, g, if small then g.dv else 0, p, nb))
    && (p == g.dv <==> nb <= g.dvsize && if small then !NearFit(h, g, nb) else SmallestFit(h, g, 0, g.dv, nb))
  }

  /** The best fit of the tree bins answers a large request if the designated victim does not fit or is larger. */
  lemma BestFitAnswers(h: Tags, g: Segment, h': Tags, g': Segment, v: nat, nb: nat, rsize: nat, mark: nat)
    requires SmallestFit(h, g, 0, v, nb) && (nb <= g.dvsize ==> nb + rsize < g.dvsize) && h.size.At(v) == nb + rsize
    requires Aside(h, g) && Granted(h, g, h', g', v, nb, mark) && v != 0 && v != g.dv && v != g.top
    requires g'.top == g.top && g'.topsize == g.topsize && g'.dv == g.dv && g'.dvsize == g.dvsize
    ensures Answered(false, h, g, h', g', v, nb, mark) && (nb <= g.dvsize ==> h.size.At(v) < g.dvsize)
  {}

  /** A near fit taken whole answers a small request. */
  lemma NearFitAnswers(h: Tags, g: Segment, h': Tags, g': Segment, p: nat, nb: nat, mark: nat)
    requires Granted(h, g, h', g', p, nb, mark) && h'.size.At(p) == h.size.At(p) && SmallestFit(h, g, g.dv, p, nb)
    requires NearFit(h, g, nb) && p != g.dv && g'.top == g.top && g'.topsize == g.topsize && g'.dv == g.dv && g'.dvsize == g.dvsize
    ensures Answered(true, h, g, h', g', p, nb, mark)
  {}

  lemma SizeOfChunk(h: Tags, g: Segment, p: nat)
    requires Tiled(h, g.chunks, g.base, g.fence, g.top) && p in g.chunks && p != g.fence
    ensures h.size.At(p) % 8 == 0 && MIN_CHUNK_SIZE <= h.size.At(p) < WORD && p + h.size.At(p) <= g.fence
  {
    assert Tile(h, g.chunks, g.fence, g.top, p);
    DifferenceOfMultiples(p, p + h.size.At(p));
  }

  /** No free chunk besides top that is large enough is smaller than chunk p, except perhaps chunk d. */
  ghost predicate SmallestFit(h: Tags, g: Segment, d: nat, p: nat, nb: nat) {
    forall c: nat :: Free(h, g.chunks, g.fence, c) && c != g.top && c != d && nb <= h.size.At(c) ==> h.size.At(p) <= h.size.At(c)
  }

  /** No free chunk besides top is large enough. */
  ghost predicate NoneFits(h: Tags, g: Segment, nb: nat) {
    forall c: nat :: Free(h, g.chunks, g.fence, c) && c != g.top ==> h.size.At(c) < nb
  }

  /** The search result speaks for all chunks in tree bins. */
  lemma BestInTrees(b: BinState, size: Mem, nb: nat, v: nat, rsize: nat, c: nat)
    requires BinsOk(b, size) && Best(b.trees, nb, v, rsize)
    requires InBins(b.small, b.trees, c) && MIN_LARGE_SIZE <= size.At(c) && nb <= size.At(c)
    ensures v != 0 && nb + rsize <= size.At(c)
  {
    BinBySize(b, size, c);
    var i := TreeIndex(size.At(c));
    assert TreeBinOk(b.w, size, b.treebins[i], b.treemap, b.trees[i], i);
    SizeTellsBin(b.w, size, b.treebins[i], TreeBinAt(i), b.trees[i], i, c);
  }

  /** Chunk x has left tree bin i. */
  lemma LargeOut(b: BinState, h: Tags, g: Segment, i: nat, x: nat)
    requires BinsOk(b, h.size) && i < NTREEBINS && 0 < Count(b.trees[i], x)
    requires Bagged(h, g, b, {})
    ensures Bagged(h, g, b.(trees := b.trees[i := Remove(b.trees[i], x)]), {x})
    ensures Free(h, g.chunks, g.fence, x) && x != g.top && x != g.dv
  {
    var trees' := b.trees[i := Remove(b.trees[i], x)];
    assert InBins(b.small, b.trees, x);
    forall y: nat
      ensures InBins(b.small, trees', y) <==> InBins(b.small, b.trees, y) && y != x
    {
      TreesAfterRemove(b, h.size, i, x, y);
    }
  }

  /** The first chunk has left small bin i. */
  lemma FirstSmallOut(b: BinState, h: Tags, g: Segment, i: nat)
    requires BinsOk(b, h.size) && i < NSMALLBINS && b.small[i] != []
    requires Bagged(h, g, b, {})
    ensures var x := b.small[i][0];
      && Bagged(h, g, b.(small := b.small[i := b.small[i][1..]]), {x})
      && Free(h, g.chunks, g.fence, x) && x != g.top && x != g.dv && h.size.At(x) == 8 * i
  {
    var x, small' := b.small[i][0], b.small[i := b.small[i][1..]];
    assert SmallBinOk(b.w, h.size, b.smallmap, b.small[i], i);
    assert x in b.small[i];
    assert InBins(b.small, b.trees, x);
    assert b.small[i][..0] + b.small[i][1..] == b.small[i][1..];
    forall y: nat
      ensures InBins(small', b.trees, y) <==> InBins(b.small, b.trees, y) && y != x
    {
      ListsAfterPop(b, h.size, i, 0, y);
    }
  }

  const MAX_SMALL_REQUEST: nat := 240
  const MAX_REQUEST: nat := WORD - 64

  /** The chunk size for a request, with room for the two tag words, rounded up to a multiple of eight. */
  function Padded(bytes: nat): (nb: nat)
    ensures nb % 8 == 0 && 16 <= nb && bytes + 8 <= nb <= (if bytes < 8 then 16 else bytes + 15)
  {
    if bytes < 7 then MIN_CHUNK_SIZE else (bytes + 15) / 8 * 8
  }

  /** Which requests are for small chunks, and which for chunks of a word's size. */
  lemma PaddedRange(bytes: nat)
    ensures Padded(bytes) < MIN_LARGE_SIZE <==> bytes <= 240
    ensures bytes < 0xFFFF_FFC0 ==> Padded(bytes) < WORD
  {}

  lemma PaddedBack(s: nat)
    requires MIN_CHUNK_SIZE <= s && s % 8 == 0
    ensures Padded(s - 8) == s
  {}

  /** Chunk p serves a request for so many bytes, in numbers. It has room for them behind its two tag words, and less
      than a chunk more. For more than 240 bytes it is the smallest such chunk. For fewer it is the designated victim
      if that has room and no chunk of less than 256 bytes has room without leaving another chunk, or else the
      smallest chunk with room but the designated victim. */
  ghost predicate ServedBytes(h: Tags, g: Segment, h': Tags, p: nat, bytes: nat) {
    && Free(h, g.chunks, g.fence, p) && p != g.top && p in h'.cinuse
    && bytes + 8 <= h'.size.At(p) && (h'.size.At(p) <= 24 || h'.size.At(p) <= bytes + 23)
    && (240 < bytes || p != g.dv ==>
          forall c: nat :: Free(h, g.chunks, g.fence, c) && c != g.top && (240 < bytes || c != g.dv) && bytes + 8 <= h.size.At(c) ==>
            h.size.At(p) <= h.size.At(c))
    && (bytes <= 240 ==> (p == g.dv <==> bytes + 8 <= g.dvsize && NoneNear(h, g, bytes)))
  }

  /** No chunk of a small bin has room for so many bytes and less than a chunk more. */
  ghost predicate NoneNear(h: Tags, g: Segment, bytes: nat) {
    forall c: nat :: Free(h, g.chunks, g.fence, c) && c != g.top && c != g.dv && h.size.At(c) < 256 && bytes + 8 <= h.size.At(c) ==>
      24 < h.size.At(c) && bytes + 23 < h.size.At(c)
  }

  /** No free chunk besides top has room for so many bytes behind its two tag words. */
  ghost predicate NoRoom(h: Tags, g: Segment, bytes: nat) {
    forall c: nat :: Free(h, g.chunks, g.fence, c) && c != g.top ==> h.size.At(c) < bytes + 8
  }

  /** A chunk has room for a request exactly when it is as large as the padded request. */
  lemma RoomIsPadded(h: Tags, g: Segment, c: nat, bytes: nat)
    requires Tiled(h, g.chunks, g.base, g.fence, g.top) && Free(h, g.chunks, g.fence, c)
    ensures 16 <= h.size.At(c) && (bytes + 8 <= h.size.At(c) <==> Padded(bytes) <= h.size.At(c))
    ensures h.size.At(c) < Padded(bytes) + 16 <==> h.size.At(c) <= 24 || h.size.At(c) <= bytes + 23
  {
    SizeOfChunk(h, g, c);
    LeastMultiple(h.size.At(c), bytes);
  }

  lemma LeastMultiple(s: nat, bytes: nat)
    requires s % 8 == 0 && 16 <= s
    ensures bytes + 8 <= s <==> Padded(bytes) <= s
    ensures s < Padded(bytes) + 16 <==> s <= 24 || s <= bytes + 23
  {
    var m, n := s / 8, Padded(bytes) / 8;
    assert s == 8 * m && Padded(bytes) == 8 * n;
  }

  lemma NoRoomIsNoneFits(b: BinState, h: Tags, g: Segment, bytes: nat)
    requires InOrder(b, h, g, {})
    ensures NoRoom(h, g, bytes) <==> NoneFits(h, g, Padded(bytes))
  {
    forall c: nat | Free(h, g.chunks, g.fence, c)
      ensures h.size.At(c) < bytes + 8 <==> h.size.At(c) < Padded(bytes)
    {
      RoomIsPadded(h, g, c, bytes);
    }
  }

  lemma SmallIsMarked(b: BinState, size: Mem, c: nat) returns (j: nat)
    requires BinsOk(b, size) && InBins(b.small, b.trees, c)
    requires size.At(c) < MIN_LARGE_SIZE
    ensures size.At(c) == 8 * j && j < NSMALLBINS && Bit(b.smallmap, j)
  {
    BinBySize(b, size, c);
    j := size.At(c) / 8;
    assert SmallBinOk(b.w, size, b.smallmap, b.small[j], j);
  }

  /** The first chunk of the first non-empty small bin that fits is the smallest fit, dv aside. */
  lemma SmallestOfSmall(b: BinState, h: Tags, g: Segment, p: nat, nb: nat, i: nat)
    requires BinsOk(b, h.size)
    requires Bagged(h, g, b, {}) && nb % 8 == 0 && nb / 8 <= i < NSMALLBINS
    requires forall j :: nb / 8 <= j < i ==> !Bit(b.smallmap, j)
    requires h.size.At(p) == 8 * i
    ensures SmallestFit(h, g, g.dv, p, nb)
  {
    forall c: nat | Free(h, g.chunks, g.fence, c) && c != g.top && c != g.dv && nb <= h.size.At(c)
      ensures 8 * i <= h.size.At(c)
    {
      assert InBins(b.small, b.trees, c);
      BinBySize(b, h.size, c);
      if h.size.At(c) < MIN_LARGE_SIZE {
        var j := SmallIsMarked(b, h.size, c);
      }
    }
  }

  /** A small bin holds a chunk that leaves no remainder worth splitting off. */
  ghost predicate NearFit(h: Tags, g: Segment, nb: nat) {
    exists c: nat :: Free(h, g.chunks, g.fence, c) && c != g.top && c != g.dv && h.size.At(c) < MIN_LARGE_SIZE
      && nb <= h.size.At(c) < nb + MIN_CHUNK_SIZE
  }

  lemma NearFitIsMarked(b: BinState, h: Tags, g: Segment, nb: nat)
    requires BinsOk(b, h.size) && Bagged(h, g, b, {}) && nb % 8 == 0 && nb < MIN_LARGE_SIZE
    ensures NearFit(h, g, nb) <==> Bit(b.smallmap, nb / 8) || Bit(b.smallmap, nb / 8 + 1)
  {
    if NearFit(h, g, nb) {
      NearIsMarked(b, h, g, nb);
    }
    if j :| nb / 8 <= j <= nb / 8 + 1 && Bit(b.smallmap, j) {
      MarkedIsNear(b, h, g, nb, j);
    }
  }

  lemma NearIsMarked(b: BinState, h: Tags, g: Segment, nb: nat)
    requires BinsOk(b, h.size) && Bagged(h, g, b, {}) && nb % 8 == 0 && NearFit(h, g, nb)
    ensures Bit(b.smallmap, nb / 8) || Bit(b.smallmap, nb / 8 + 1)
  {
    var c: nat :| InBins(b.small, b.trees, c) && h.size.At(c) < MIN_LARGE_SIZE && nb <= h.size.At(c) < nb + MIN_CHUNK_SIZE;
    var j := SmallIsMarked(b, h.size, c);
    assert j == nb / 8 || j == nb / 8 + 1;
  }

  lemma MarkedIsNear(b: BinState, h: Tags, g: Segment, nb: nat, j: nat)
    requires BinsOk(b, h.size) && Bagged(h, g, b, {}) && nb % 8 == 0 && nb <= 8 * j < nb + MIN_CHUNK_SIZE && Bit(b.smallmap, j)
    ensures NearFit(h, g, nb)
  {
    BitBelow(b.smallmap, j);
    assert SmallBinOk(b.w, h.size, b.smallmap, b.small[j], j);
    assert InLists(b.small, b.small[j][0]) && h.size.At(b.small[j][0]) == 8 * j;
    assert InBins(b.small, b.trees, b.small[j][0]);
  }

  lemma QuotientBelowBin(nb: nat, j: nat)
    requires nb <= 8 * j
    ensures nb / 8 <= j
  {}

  lemma NoSmallFits(b: BinState, size: Mem, c: nat, nb: nat)
    requires BinsOk(b, size) && InBins(b.small, b.trees, c)
    requires nb < MIN_LARGE_SIZE ==> forall j: nat :: nb / 8 <= j < NSMALLBINS ==> !Bit(b.smallmap, j)
    requires nb <= size.At(c)
    ensures MIN_LARGE_SIZE <= size.At(c)
  {
    if size.At(c) < MIN_LARGE_SIZE {
      var j := SmallIsMarked(b, size, c);
      QuotientBelowBin(nb, j);
    }
  }

  /** A best fit of the tree bins is the smallest fit, dv aside, when no small bin fits. */
  lemma SmallestOfTrees(b: BinState, h: Tags, g: Segment, nb: nat,
                        v: nat, rsize: nat)
    requires BinsOk(b, h.size)
    requires Bagged(h, g, b, {}) && Best(b.trees, nb, v, rsize)
    requires nb < MIN_LARGE_SIZE ==> forall j: nat :: nb / 8 <= j < NSMALLBINS ==> !Bit(b.smallmap, j)
    ensures forall c: nat :: Free(h, g.chunks, g.fence, c) && c != g.top && c != g.dv && nb <= h.size.At(c) ==>
      v != 0 && nb + rsize <= h.size.At(c)
  {
    forall c: nat | Free(h, g.chunks, g.fence, c) && c != g.top && c != g.dv && nb <= h.size.At(c)
      ensures v != 0 && nb + rsize <= h.size.At(c)
    {
      assert InBins(b.small, b.trees, c);
      NoSmallFits(b, h.size, c, nb);
      BestInTrees(b, h.size, nb, v, rsize, c);
    }
  }

  /** What the unsigned comparison says of the best binned chunk v and the designated victim. */
  ghost predicate Compared(h: Tags, g: Segment, v: nat, nb: nat, rsize: nat) {
    if v != 0 && rsize < (g.dvsize - nb) % WORD then
      SmallestFit(h, g, 0, v, nb) && (nb <= g.dvsize ==> nb + rsize < g.dvsize)
    else if nb <= g.dvsize then SmallestFit(h, g, 0, g.dv, nb)
    else NoneFits(h, g, nb)
  }

  /** The unsigned comparison prefers the designated victim when it fits and is no larger. */
  lemma DvOrBest(h: Tags, g: Segment,
                 v: nat, nb: nat, rsize: nat)
    requires Tiled(h, g.chunks, g.base, g.fence, g.top) && Aside(h, g) && 0 < nb < WORD
    requires forall c: nat :: Free(h, g.chunks, g.fence, c) && c != g.top && c != g.dv && nb <= h.size.At(c) ==>
      v != 0 && nb + rsize <= h.size.At(c)
    requires v != 0 ==> h.size.At(v) == nb + rsize < WORD
    ensures Compared(h, g, v, nb, rsize)
  {
    if g.dv != 0 {
      SizeOfChunk(h, g, g.dv);
    }
    WrappedGap(g.dvsize, nb);
  }

  lemma WrappedGap(a: nat, b: nat)
    requires a < WORD && b < WORD
    ensures (a - b) % WORD == if b <= a then a - b else WORD + a - b
  {
    if b <= a {
    } else {
      assert (a - b) % WORD == a - b + WORD;
    }
  }

  /** An empty tree map: only the designated victim can serve a large request. */
  lemma NoTrees(b: BinState, h: Tags, g: Segment, nb: nat)
    requires InOrder(b, h, g, {})
    requires b.treemap == 0 && MIN_LARGE_SIZE <= nb < WORD
    ensures if nb <= g.dvsize then SmallestFit(h, g, 0, g.dv, nb) else NoneFits(h, g, nb)
  {
    EmptyTreesBest(b, h.size, nb);
    SmallestOfTrees(b, h, g, nb, 0, 0);
    DvOrBest(h, g, 0, nb, 0);
  }

  lemma EmptyTreesBest(b: BinState, size: Mem, nb: nat)
    requires BinsOk(b, size) && b.treemap == 0
    ensures Best(b.trees, nb, 0, 0)
  {
    forall j | 0 <= j < NTREEBINS
      ensures b.trees[j].Nil?
    {
      assert TreeBinOk(b.w, size, b.treebins[j], b.treemap, b.trees[j], j);
      ZeroBits(j);
    }
  }

  /** Neither bins nor the designated victim can serve a small request. */
  lemma NoBinFits(b: BinState, h: Tags, g: Segment, nb: nat)
    requires InOrder(b, h, g, {})
    requires b.treemap == 0 && g.dvsize < nb < MIN_LARGE_SIZE
    requires forall j: nat :: nb / 8 <= j < NSMALLBINS ==> !Bit(b.smallmap, j)
    ensures NoneFits(h, g, nb)
  {
    EmptyTreesBest(b, h.size, nb);
    SmallestOfTrees(b, h, g, nb, 0, 0);
    DvOrBest(h, g, 0, nb, 0);
  }

  lemma EmptyBins(b: BinState, size: Mem)
    requires b.smallmap == b.treemap == 0 && |b.treebins| == |b.trees| == NTREEBINS && |b.small| == NSMALLBINS
    requires forall i :: 0 <= i < NTREEBINS ==> b.treebins[i] == 0 && b.trees[i].Nil?
    requires forall i :: 0 <= i < NSMALLBINS ==> b.small[i] == []
    ensures BinsOk(b, size) && forall x: nat :: !InBins(b.small, b.trees, x)
  {
    forall i | 0 <= i < NTREEBINS
      ensures TreeBinOk(b.w, size, b.treebins[i], 0, b.trees[i], i)
      ensures SmallBinOk(b.w, size, 0, b.small[i], i)
    {
      ZeroBits(i);
    }
  }

  /** An answer in terms of the padded request is one in terms of the bytes asked for. */
  lemma AnsweredInBytes(b: BinState, h: Tags, g: Segment, b': BinState, h': Tags, g': Segment, p: nat, bytes: nat, mark: nat)
    requires InOrder(b, h, g, {}) && InOrder(b', h', g', {})
    requires Answered(bytes <= 240, h, g, h', g', p, Padded(bytes), mark)
    ensures ServedBytes(h, g, h', p, bytes) && !NoRoom(h, g, bytes)
  {
    forall c: nat | Free(h, g.chunks, g.fence, c)
      ensures 16 <= h.size.At(c) && (bytes + 8 <= h.size.At(c) <==> Padded(bytes) <= h.size.At(c))
      ensures h.size.At(c) < Padded(bytes) + 16 <==> h.size.At(c) <= 24 || h.size.At(c) <= bytes + 23
    {
      RoomIsPadded(h, g, c, bytes);
    }
    NearInBytes(h, g, bytes);
    assert Live(h', g'.chunks, g'.fence, p);
    SizeOfChunk(h', g', p);
    LeastMultiple(h'.size.At(p), bytes);
  }

  /** So is the reply of the allocator: zero exactly when no other free chunk than top has room. */
  lemma RepliedInBytes(b: BinState, h: Tags, g: Segment, b': BinState, h': Tags, g': Segment, mem: nat, bytes: nat, mark: nat)
    requires InOrder(b, h, g, {}) && InOrder(b', h', g', {})
    requires mem == 0 ==> h' == h && g' == g && NoneFits(h', g', Padded(bytes))
    requires mem != 0 ==> 8 <= mem && Answered(bytes <= 240, h, g, h', g', mem - 8, Padded(bytes), mark)
    ensures mem == 0 <==> NoRoom(h, g, bytes)
    ensures mem == 0 || (8 <= mem && ServedBytes(h, g, h', mem - 8, bytes))
  {
    if mem == 0 {
      NoRoomIsNoneFits(b, h, g, bytes);
    } else {
      AnsweredInBytes(b, h, g, b', h', g', mem - 8, bytes, mark);
    }
  }

  lemma NearInBytes(h: Tags, g: Segment, bytes: nat)
    requires Tiled(h, g.chunks, g.base, g.fence, g.top)
    ensures NearFit(h, g, Padded(bytes)) <==> !NoneNear(h, g, bytes)
  {
    forall c: nat | Free(h, g.chunks, g.fence, c)
      ensures bytes + 8 <= h.size.At(c) <==> Padded(bytes) <= h.size.At(c)
      ensures h.size.At(c) < Padded(bytes) + 16 <==> h.size.At(c) <= 24 || h.size.At(c) <= bytes + 23
    {
      RoomIsPadded(h, g, c, bytes);
    }
  }

  /** A free chunk is in one place only: top, the designated victim, or once in the bin of its size. */
  lemma OnePlace(b: BinState, h: Tags, g: Segment, c: nat)
    requires InOrder(b, h, g, {})
    requires Free(h, g.chunks, g.fence, c) && c != g.top && c != g.dv
    ensures var s := h.size.At(c);
      if s < MIN_LARGE_SIZE then c in b.small[s / 8] && !InTrees(b.trees, c)
      else TreeIndex(s) < NTREEBINS && Count(b.trees[TreeIndex(s)], c) == 1 && !InLists(b.small, c)
    ensures forall i :: 0 <= i < NSMALLBINS && i != h.size.At(c) / 8 ==> c !in b.small[i]
    ensures forall i :: 0 <= i < NTREEBINS && i != TreeIndex(h.size.At(c)) ==> Count(b.trees[i], c) == 0
  {
    assert InBins(b.small, b.trees, c);
    BinBySize(b, h.size, c);
    forall i | 0 <= i < NTREEBINS
      ensures 0 < Count(b.trees[i], c) ==> i == TreeIndex(h.size.At(c)) && Count(b.trees[i], c) <= 1
      ensures c in b.small[i] ==> i == h.size.At(c) / 8
    {
      assert TreeBinOk(b.w, h.size, b.treebins[i], b.treemap, b.trees[i], i);
      assert SmallBinOk(b.w, h.size, b.smallmap, b.small[i], i);
      if 0 < Count(b.trees[i], c) {
        SizeTellsBin(b.w, h.size, b.treebins[i], TreeBinAt(i), b.trees[i], i, c);
      }
    }
  }
}

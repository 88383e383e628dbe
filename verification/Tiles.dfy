/** Boundary tags: the chunks of a segment, in address order, tile it. */
module Tiles {
  import opened BinIndex
  import opened Links
  import opened Bins

  /** The tags in memory, the head word split into size and the two in-use bits: `foot` at address a
      is the word before the chunk at a, `pinuse` the chunks whose predecessor is in use. */
  datatype Tags = Tags(size: Mem, foot: Mem, cinuse: set<nat>, pinuse: set<nat>)

  ghost predicate Gap(chunks: set<nat>, c: nat, n: nat) {
    forall d :: d in chunks ==> d <= c || n <= d
  }

  /** The tags of chunk c agree with those of the chunk behind it. Behind a free chunk comes one in
      use, except that top is the last chunk. */
  ghost predicate Tile(h: Tags, chunks: set<nat>, fence: nat, top: nat, c: nat) {
    var n := c + h.size.At(c);
    && MIN_CHUNK_SIZE <= h.size.At(c)
    && n in chunks && Gap(chunks, c, n)
    && (c in h.cinuse <==> n in h.pinuse)
    && (c !in h.cinuse ==>
          c in h.pinuse && if c == top then n == fence else n in h.cinuse && h.foot.At(n) == h.size.At(c))
  }

  ghost predicate Within(chunks: set<nat>, base: nat, fence: nat) {
    forall c :: c in chunks ==> base <= c <= fence && c % 8 == 0
  }

  /** The chunks tile the segment from base to the fence; top, if there is one, is the last. */
  ghost predicate Tiled(h: Tags, chunks: set<nat>, base: nat, fence: nat, top: nat) {
    && FIRST_CHUNK <= base && fence < WORD
    && base in chunks && fence in chunks && base in h.pinuse
    && Within(chunks, base, fence)
    && (top != 0 ==> top in chunks && top != fence && top !in h.cinuse)
    && (fence in h.cinuse || top != 0)
    && forall c {:trigger Tile(h, chunks, fence, top, c)} :: c in chunks && c != fence ==> Tile(h, chunks, fence, top, c)
  }

  ghost predicate Live(h: Tags, chunks: set<nat>, fence: nat, c: nat) {
    c in chunks && c != fence && c in h.cinuse
  }

  ghost predicate Free(h: Tags, chunks: set<nat>, fence: nat, c: nat) {
    c in chunks && c != fence && c !in h.cinuse
  }

  /** The chunk at or before address a. */
  lemma ChunkUpTo(chunks: set<nat>, a: nat) returns (d: nat)
    requires exists c :: c in chunks && c <= a
    ensures d in chunks && d <= a && forall e :: e in chunks ==> e <= d || a < e
    decreases chunks
  {
    var c :| c in chunks && c <= a;
    if exists e: nat :: e in chunks && e <= a && c < e {
      var e: nat :| e in chunks && e <= a && c < e;
      assert e in chunks - {c} && e <= a;
      d := ChunkUpTo(chunks - {c}, a);
      forall x | x in chunks
        ensures x <= d || a < x
      {
        assert x == c || x in chunks - {c};
      }
    } else {
      d := c;
    }
  }

  ghost predicate Covers(h: Tags, chunks: set<nat>, fence: nat, c: nat, a: nat) {
    c in chunks && c != fence && c <= a < c + h.size.At(c)
  }

  /** Every address of the segment lies in exactly one chunk. */
  lemma Coverage(h: Tags, chunks: set<nat>, base: nat, fence: nat, top: nat, a: nat)
    requires Tiled(h, chunks, base, fence, top) && base <= a < fence
    ensures exists c :: Covers(h, chunks, fence, c, a)
    ensures forall c, d :: Covers(h, chunks, fence, c, a) && Covers(h, chunks, fence, d, a) ==> c == d
  {
    var c := ChunkUpTo(chunks, a);
    assert Tile(h, chunks, fence, top, c);
    assert Covers(h, chunks, fence, c, a);
    forall c, d | Covers(h, chunks, fence, c, a) && Covers(h, chunks, fence, d, a)
      ensures c == d
    {
      assert Tile(h, chunks, fence, top, c) && Tile(h, chunks, fence, top, d);
    }
  }

  /** Two chunks do not overlap, and two neighbours are not both free. */
  lemma Neighbours(h: Tags, chunks: set<nat>, base: nat, fence: nat, top: nat, c: nat, d: nat)
    requires Tiled(h, chunks, base, fence, top) && c in chunks && d in chunks && c < d
    ensures c + h.size.At(c) <= d
    ensures Free(h, chunks, fence, c) && Free(h, chunks, fence, d) ==> c + h.size.At(c) < d
  {
    assert Tile(h, chunks, fence, top, c);
  }

  /** The chunk before one whose predecessor is free is found through the foot. */
  lemma Predecessor(h: Tags, chunks: set<nat>, base: nat, fence: nat, top: nat, p: nat)
    requires Tiled(h, chunks, base, fence, top) && p in chunks && p != fence && p !in h.pinuse
    ensures h.foot.At(p) <= p && var d := p - h.foot.At(p);
      && Free(h, chunks, fence, d) && d != top && d in h.pinuse
      && h.size.At(d) == h.foot.At(p) && MIN_CHUNK_SIZE <= h.foot.At(p)
  {
    assert base <= p - 1;
    var d := ChunkUpTo(chunks, p - 1);
    assert Tile(h, chunks, fence, top, d);
  }

  /** The chunks left when all of p .. n becomes one chunk. */
  ghost function Outside(chunks: set<nat>, p: nat, n: nat): set<nat> {
    set c | c in chunks && !(p < c < n)
  }

  /** The tags after all of p .. n has become one free chunk. */
  ghost predicate MergedTags(h: Tags, h': Tags, p: nat, n: nat) {
    && p < n
    && (forall c: nat :: h'.size.At(c) == if c == p then n - p else h.size.At(c))
    && (forall c: nat :: c in h'.cinuse <==> c in h.cinuse && c != p)
    && (forall c: nat :: c in h'.pinuse <==> (c in h.pinuse || c == p) && c != n)
    && (forall c: nat :: c != n ==> h'.foot.At(c) == h.foot.At(c))
  }

  /** Whether the merged chunk stays an ordinary one, or absorbs top and becomes top itself. */
  ghost predicate MergedEnd(h: Tags, h': Tags, fence: nat, top: nat, top': nat, p: nat, n: nat) {
    if top' == top then p < n && !(p <= top < n) && n in h.cinuse && h'.foot.At(n) == n - p
    else top' == p && n == fence && p <= top < n
  }

  lemma MergedTiles(h: Tags, h': Tags, chunks: set<nat>, base: nat, fence: nat, top: nat, top': nat, p: nat, n: nat)
    requires Tiled(h, chunks, base, fence, top) && p in chunks && n in chunks && p in h.pinuse
    requires MergedTags(h, h', p, n) && MergedEnd(h, h', fence, top, top', p, n)
    ensures Tiled(h', Outside(chunks, p, n), base, fence, top')
  {
    var chunks' := Outside(chunks, p, n);
    assert Tile(h, chunks, fence, top, p);
    forall c | c in chunks' && c != fence
      ensures Tile(h', chunks', fence, top', c)
    {
      assert Tile(h, chunks, fence, top, c);
    }
  }

  /** The tags after chunk p of size s has been split: nb bytes in use, the rest a free chunk. */
  ghost predicate SplitTags(h: Tags, h': Tags, p: nat, nb: nat, s: nat) {
    && nb < s
    && (forall c: nat :: h'.size.At(c) == if c == p then nb else if c == p + nb then s - nb else h.size.At(c))
    && (forall c: nat :: c in h'.cinuse <==> (c in h.cinuse || c == p) && c != p + nb)
    && (forall c: nat :: c in h'.pinuse <==> c in h.pinuse || c == p || c == p + nb)
    && (forall c: nat :: c != p + nb && c != p + s ==> h'.foot.At(c) == h.foot.At(c))
    && h'.foot.At(p + s) == s - nb
  }

  lemma SplitTiles(h: Tags, h': Tags, chunks: set<nat>, base: nat, fence: nat, top: nat, p: nat, nb: nat)
    requires Tiled(h, chunks, base, fence, top) && Free(h, chunks, fence, p) && p != top
    requires MIN_CHUNK_SIZE <= nb && nb % 8 == 0 && nb + MIN_CHUNK_SIZE <= h.size.At(p)
    requires SplitTags(h, h', p, nb, h.size.At(p))
    ensures Tiled(h', chunks + {p + nb}, base, fence, top) && p + nb !in chunks
  {
    var chunks' := chunks + {p + nb};
    assert Tile(h, chunks, fence, top, p);
    SplitHalves(h, h', chunks, fence, top, p, nb);
    forall c | c in chunks' && c != fence
      ensures Tile(h', chunks', fence, top, c)
    {
      if c != p && c != p + nb {
        SplitElsewhere(h, h', chunks, fence, top, p, nb, c);
      }
    }
    SplitWithin(chunks, base, fence, p, nb);
  }

  lemma SplitWithin(chunks: set<nat>, base: nat, fence: nat, p: nat, nb: nat)
    requires Within(chunks, base, fence) && p in chunks && p + nb <= fence && nb % 8 == 0
    ensures Within(chunks + {p + nb}, base, fence)
  {
    SumOfMultiples(p, nb);
  }

  lemma SumOfMultiples(a: nat, b: nat)
    requires a % 8 == 0 && b % 8 == 0
    ensures (a + b) % 8 == 0
  {}

  lemma SplitHalves(h: Tags, h': Tags, chunks: set<nat>, fence: nat, top: nat, p: nat, nb: nat)
    requires Tile(h, chunks, fence, top, p) && p != top && p !in h.cinuse
    requires MIN_CHUNK_SIZE <= nb && nb + MIN_CHUNK_SIZE <= h.size.At(p) && SplitTags(h, h', p, nb, h.size.At(p))
    requires p in chunks && top in chunks + {0}
    ensures p + nb !in chunks
    ensures Tile(h', chunks + {p + nb}, fence, top, p) && Tile(h', chunks + {p + nb}, fence, top, p + nb)
  {
    assert Gap(chunks, p, p + h.size.At(p));
    assert p + nb !in chunks;
    assert Gap(chunks + {p + nb}, p, p + nb);
    assert Gap(chunks + {p + nb}, p + nb, p + h.size.At(p));
  }

  lemma SplitElsewhere(h: Tags, h': Tags, chunks: set<nat>, fence: nat, top: nat, p: nat, nb: nat, c: nat)
    requires Tile(h, chunks, fence, top, p) && Tile(h, chunks, fence, top, c)
    requires p in chunks && c in chunks && c != p && c != p + nb && p !in h.cinuse
    requires 0 < nb < h.size.At(p) && SplitTags(h, h', p, nb, h.size.At(p)) && p != top
    ensures Tile(h', chunks + {p + nb}, fence, top, c)
  {
    var n := c + h.size.At(c);
    assert Gap(chunks, p, p + h.size.At(p)) && Gap(chunks, c, n);
    assert n != p + nb && n != p + h.size.At(p);
    assert Gap(chunks + {p + nb}, c, n);
  }

  /** The tags after free chunk p of size s has been taken whole. */
  ghost predicate TakenTags(h: Tags, h': Tags, p: nat, s: nat) {
    && h'.size == h.size
    && (forall c: nat :: c in h'.cinuse <==> c in h.cinuse || c == p)
    && (forall c: nat :: c in h'.pinuse <==> c in h.pinuse || c == p || c == p + s)
    && (forall c: nat :: c != p + s ==> h'.foot.At(c) == h.foot.At(c))
  }

  lemma TakenTiles(h: Tags, h': Tags, chunks: set<nat>, base: nat, fence: nat, top: nat, p: nat)
    requires Tiled(h, chunks, base, fence, top) && Free(h, chunks, fence, p) && p != top
    requires TakenTags(h, h', p, h.size.At(p))
    ensures Tiled(h', chunks, base, fence, top)
  {
    assert Tile(h, chunks, fence, top, p);
    forall c | c in chunks && c != fence
      ensures Tile(h', chunks, fence, top, c)
    {
      assert Tile(h, chunks, fence, top, c);
    }
  }
}

/** What the two arms that serve a request from top leave of the tiling. */
module TopArms {
  import opened BinIndex
  import opened Links
  import opened Bins
  import opened Tiles

  /** From address c on, the sizes and bits that memory happens to hold lead from chunk to chunk to the fence. */
  ghost predicate Walks(h: Tags, c: nat, fence: nat)
    decreases fence - c
  {
    if fence <= c then c == fence && fence in h.cinuse
    else
      var s := h.size.At(c);
      && MIN_CHUNK_SIZE <= s && c % 8 == 0
      && (c in h.cinuse <==> c + s in h.pinuse)
      && (c !in h.cinuse ==> c in h.pinuse && c + s in h.cinuse && h.foot.At(c + s) == s)
      && Walks(h, c + s, fence)
  }

  /** What the words at c tell by themselves: a chunk of a possible size that ends at or before the fence, with bits,
      and a foot if it is free, that agree with the words behind it. */
  ghost predicate HeadFits(h: Tags, c: nat, fence: nat) {
    var s := h.size.At(c);
    && MIN_CHUNK_SIZE <= s && s % 8 == 0 && c % 8 == 0 && c + s <= fence
    && (c in h.cinuse <==> c + s in h.pinuse)
    && (c !in h.cinuse ==> c in h.pinuse && c + s in h.cinuse && h.foot.At(c + s) == s)
  }

  lemma WalksFrom(h: Tags, c: nat, fence: nat)
    requires c < fence && fence % 8 == 0
    ensures Walks(h, c, fence) <==> HeadFits(h, c, fence) && Walks(h, c + h.size.At(c), fence)
  {
    if Walks(h, c, fence) {
      DifferenceOfEights(c, c + h.size.At(c));
    }
  }

  lemma DifferenceOfEights(a: nat, b: nat)
    ensures a % 8 == 0 && b % 8 == 0 && a <= b ==> (b - a) % 8 == 0
  {}

  /** The addresses the walk comes to. */
  ghost function Walked(h: Tags, c: nat, fence: nat): (cs: set<nat>)
    ensures c in cs && forall d :: d in cs ==> c <= d
    decreases fence - c
  {
    if fence <= c || h.size.At(c) == 0 then {c} else {c} + Walked(h, c + h.size.At(c), fence)
  }

  /** A chunk before all others does not disturb them. */
  lemma OneMoreTile(h: Tags, cs: set<nat>, ds: set<nat>, c: nat, fence: nat, d: nat)
    requires forall e :: e in cs <==> e == c || e in ds
    requires c < d && Tile(h, ds, fence, 0, d)
    ensures Tile(h, cs, fence, 0, d)
  {
    assert Gap(ds, d, d + h.size.At(d));
  }

  lemma FirstTile(h: Tags, ds: set<nat>, c: nat, fence: nat)
    requires c < fence && Walks(h, c, fence)
    requires c + h.size.At(c) in ds && forall e :: e in ds ==> c + h.size.At(c) <= e
    requires 0 < c
    ensures Tile(h, {c} + ds, fence, 0, c)
  {}

  /** The chunks cs tile the memory from address c to the fence. */
  ghost predicate TilesUp(h: Tags, cs: set<nat>, c: nat, fence: nat) {
    && c in cs && fence in cs && fence in h.cinuse
    && (forall d :: d in cs ==> c <= d <= fence && (d != fence ==> d % 8 == 0))
    && forall d {:trigger Tile(h, cs, fence, 0, d)} :: d in cs && d != fence ==> Tile(h, cs, fence, 0, d)
  }

  lemma OneMore(h: Tags, cs: set<nat>, ds: set<nat>, c: nat, fence: nat)
    requires c < fence && c % 8 == 0 && Tile(h, cs, fence, 0, c) && TilesUp(h, ds, c + h.size.At(c), fence)
    requires forall e :: e in cs <==> e == c || e in ds
    ensures TilesUp(h, cs, c, fence)
  {
    forall d | d in cs && d != fence
      ensures Tile(h, cs, fence, 0, d)
    {
      if d != c {
        assert Tile(h, ds, fence, 0, d);
        OneMoreTile(h, cs, ds, c, fence, d);
      }
    }
  }

  lemma {:induction false} WalkedTiles(h: Tags, c: nat, fence: nat)
    requires Walks(h, c, fence) && 0 < c
    ensures TilesUp(h, Walked(h, c, fence), c, fence)
    decreases fence - c
  {
    if c < fence {
      var n := c + h.size.At(c);
      WalkedTiles(h, n, fence);
      FirstTile(h, Walked(h, n, fence), c, fence);
      OneMore(h, Walked(h, c, fence), Walked(h, n, fence), c, fence);
    }
  }

  /** A tiling is walked from each of its chunks. */
  lemma {:induction false} TiledWalks(h: Tags, chunks: set<nat>, base: nat, fence: nat, c: nat)
    requires Tiled(h, chunks, base, fence, 0) && c in chunks
    ensures Walks(h, c, fence)
    decreases fence - c
  {
    if c < fence {
      assert Tile(h, chunks, fence, 0, c);
      TiledWalks(h, chunks, base, fence, c + h.size.At(c));
    }
  }

  /** Chunks with the same sizes from the base on are the same, up to one of them. */
  lemma {:induction false} SameChunks(h: Tags, h': Tags, chunks: set<nat>, chunks': set<nat>, base: nat, fence: nat,
                                      top: nat, top': nat, p: nat, c: nat)
    requires Tiled(h, chunks, base, fence, top) && Tiled(h', chunks', base, fence, top')
    requires forall d :: d in chunks && d < p ==> h'.size.At(d) == h.size.At(d)
    requires c in chunks && c <= p <= fence
    ensures c in chunks'
    decreases c
  {
    if c != base {
      var d := ChunkUpTo(chunks, c - 1);
      assert Tile(h, chunks, fence, top, d) && Gap(chunks, d, d + h.size.At(d));
      SameChunks(h, h', chunks, chunks', base, fence, top, top', p, d);
      assert Tile(h', chunks', fence, top', d);
    }
  }

  /** The first arm marks top in use with the size of the remainder, and there is no top any more. */
  ghost predicate TopTaken(h: Tags, h': Tags, p: nat, s: nat) {
    && h'.size == h.size.Set(p, s)
    && h'.cinuse == h.cinuse + {p} && h'.pinuse == h.pinuse + {p, p + s}
    && (forall c: nat :: c != p + s ==> h'.foot.At(c) == h.foot.At(c))
  }

  /** It leaves a tiling exactly when what memory happens to hold behind the remainder is walked to the fence. */
  lemma TakenExact(h: Tags, h': Tags, chunks: set<nat>, base: nat, fence: nat, p: nat, s: nat)
    requires Tiled(h, chunks, base, fence, p) && p != 0 && MIN_CHUNK_SIZE <= s < h.size.At(p) && s % 8 == 0
    requires TopTaken(h, h', p, s)
    ensures (exists chunks' :: Tiled(h', chunks', base, fence, 0)) <==> Walks(h', p + s, fence)
  {
    assert Tile(h, chunks, fence, p, p);
    if chunks' :| Tiled(h', chunks', base, fence, 0) {
      SameChunks(h, h', chunks, chunks', base, fence, p, 0, p, p);
      assert Tile(h', chunks', fence, 0, p);
      TiledWalks(h', chunks', base, fence, p + s);
    }
    if Walks(h', p + s, fence) {
      WalkedTiles(h', p + s, fence);
      var rest := Walked(h', p + s, fence);
      TakenTiled(h, h', chunks, base, fence, p, s, rest, (set c | c in chunks && c <= p) + rest);
    }
  }

  /** It leaves none if the words behind the remainder do not fit, as when they are zero; and that they do decides
      if they are all the words there are up to the fence. */
  lemma TakenChecked(h: Tags, h': Tags, chunks: set<nat>, base: nat, fence: nat, p: nat, s: nat)
    requires Tiled(h, chunks, base, fence, p) && p != 0 && MIN_CHUNK_SIZE <= s < h.size.At(p) && s % 8 == 0
    requires TopTaken(h, h', p, s)
    ensures (exists chunks' :: Tiled(h', chunks', base, fence, 0)) ==> HeadFits(h', p + s, fence)
    ensures p + s + h'.size.At(p + s) == fence ==>
      ((exists chunks' :: Tiled(h', chunks', base, fence, 0)) <==> HeadFits(h', p + s, fence) && fence in h'.cinuse)
  {
    assert Tile(h, chunks, fence, p, p);
    TakenExact(h, h', chunks, base, fence, p, s);
    WalksFrom(h', p + s, fence);
  }

  /** Chunks before a tile do not disturb it. */
  lemma LaterTile(h: Tags, cs: set<nat>, rest: set<nat>, fence: nat, c: nat)
    requires Tile(h, rest, fence, 0, c) && rest <= cs && forall d :: d in cs ==> d in rest || d < c
    ensures Tile(h, cs, fence, 0, c)
  {
    assert Gap(rest, c, c + h.size.At(c));
  }

  /** The chunks up to p, and the rest behind it. */
  ghost predicate Composed(cs: set<nat>, chunks: set<nat>, p: nat, r: nat, rest: set<nat>) {
    && (forall d :: d in cs <==> (d in chunks && d <= p) || d in rest)
    && r in rest && forall d :: d in rest ==> r <= d
  }

  lemma TakenTile(h: Tags, h': Tags, chunks: set<nat>, base: nat, fence: nat, p: nat, s: nat, rest: set<nat>, cs: set<nat>, c: nat)
    requires Tiled(h, chunks, base, fence, p) && p != 0 && MIN_CHUNK_SIZE <= s < h.size.At(p)
    requires TopTaken(h, h', p, s) && TilesUp(h', rest, p + s, fence) && Composed(cs, chunks, p, p + s, rest)
    requires c in cs && c != fence
    ensures Tile(h', cs, fence, 0, c)
  {
    if c <= p {
      BelowTop(h, h', chunks, base, fence, p, s, cs, c);
    } else {
      assert Tile(h', rest, fence, 0, c);
      LaterTile(h', cs, rest, fence, c);
    }
  }

  lemma TakenTiled(h: Tags, h': Tags, chunks: set<nat>, base: nat, fence: nat, p: nat, s: nat, rest: set<nat>, cs: set<nat>)
    requires Tiled(h, chunks, base, fence, p) && p != 0 && MIN_CHUNK_SIZE <= s < h.size.At(p)
    requires TopTaken(h, h', p, s) && TilesUp(h', rest, p + s, fence) && Composed(cs, chunks, p, p + s, rest)
    ensures Tiled(h', cs, base, fence, 0)
  {
    assert Tile(h, chunks, fence, p, p);
    forall c | c in cs && c != fence
      ensures Tile(h', cs, fence, 0, c)
    {
      TakenTile(h, h', chunks, base, fence, p, s, rest, cs, c);
    }
  }

  lemma BelowTop(h: Tags, h': Tags, chunks: set<nat>, base: nat, fence: nat, p: nat, s: nat, chunks': set<nat>, c: nat)
    requires Tiled(h, chunks, base, fence, p) && p != 0 && MIN_CHUNK_SIZE <= s < h.size.At(p) && TopTaken(h, h', p, s)
    requires forall d :: d in chunks' <==> (d in chunks && d <= p) || (d in chunks' && p + s <= d)
    requires p + s in chunks' && c in chunks && c <= p
    ensures Tile(h', chunks', fence, 0, c)
  {
    assert Tile(h, chunks, fence, p, c) && Gap(chunks, c, c + h.size.At(c));
  }

  /** The second arm cuts off the front of top, with a remainder r too small for a chunk as the new top. */
  ghost predicate TopCut(h: Tags, h': Tags, p: nat, nb: nat, rsize: nat) {
    && h'.size == h.size.Set(p + nb, rsize).Set(p, nb)
    && h'.cinuse == h.cinuse - {p + nb} + {p} && h'.pinuse == h.pinuse + {p, p + nb}
  }

  lemma ChunkFits(h: Tags, chunks: set<nat>, base: nat, fence: nat, top: nat, c: nat)
    requires Tiled(h, chunks, base, fence, top) && c in chunks
    ensures c != fence ==> MIN_CHUNK_SIZE <= h.size.At(c) && c + h.size.At(c) in chunks
  {
    if c != fence {
      assert Tile(h, chunks, fence, top, c);
    }
  }

  /** Behind a chunk in use, the fence is in use. */
  lemma FenceInUse(h: Tags, chunks: set<nat>, base: nat, fence: nat, top: nat, p: nat)
    requires Tiled(h, chunks, base, fence, top) && p in chunks && p in h.cinuse && p + h.size.At(p) == fence && p != fence
    ensures fence in h.cinuse
  {
    assert Tile(h, chunks, fence, top, p) && Gap(chunks, p, fence);
    if top != 0 {
      assert Tile(h, chunks, fence, top, top);
    }
  }

  /** It never leaves a tiling, with whatever top. */
  lemma CutNever(h: Tags, h': Tags, chunks: set<nat>, base: nat, fence: nat, p: nat, nb: nat, rsize: nat,
                 chunks': set<nat>, top': nat)
    requires Tiled(h, chunks, base, fence, p) && p != 0 && 0 < nb && h.size.At(p) == nb + rsize && rsize < MIN_CHUNK_SIZE
    requires TopCut(h, h', p, nb, rsize)
    ensures !Tiled(h', chunks', base, fence, top')
  {
    assert Tile(h, chunks, fence, p, p);
    if Tiled(h', chunks', base, fence, top') {
      SameChunks(h, h', chunks, chunks', base, fence, p, top', p, p);
      ChunkFits(h', chunks', base, fence, top', p);
      if rsize == 0 {
        FenceInUse(h', chunks', base, fence, top', p);
      } else {
        ChunkFits(h', chunks', base, fence, top', p + nb);
      }
    }
  }
}

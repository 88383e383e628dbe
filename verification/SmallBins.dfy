/** Linking into a small bin and unlinking from it. A bin is a ring through a list header, which has
    the two link words of a chunk and lies in the allocator state; the map says if it is in use. */
module SmallBins {
  import opened BinIndex
  import opened BitWords
  import opened SizeTrie
  import opened Links
  import opened Bins
  import opened TreeUnlink

  /** Chunk x between list header b and chunk f. */
  function Pushed(w: Words, b: nat, f: nat, x: nat): Words {
    w.(fd := w.fd.Set(b, x).Set(x, f), bk := w.bk.Set(f, x).Set(x, b))
  }

  ghost predicate OthersSame(w: Words, w': Words, i: nat, xs: seq<nat>, x: nat) {
    forall y :: y != SmallBinAt(i) && y !in xs && y != x ==> Same(w, w', y)
  }

  lemma PushRing(w: Words, size: Mem, smallmap: nat, xs: seq<nat>, i: nat, x: nat, f: nat)
    requires i < NSMALLBINS && SmallBinOk(w, size, smallmap, xs, i) && x !in xs && FIRST_CHUNK <= x
    requires f == if xs == [] then SmallBinAt(i) else w.fd.At(SmallBinAt(i))
    ensures Circular(Pushed(w, SmallBinAt(i), f, x).fd, Pushed(w, SmallBinAt(i), f, x).bk, [SmallBinAt(i)] + ([x] + xs))
    ensures OthersSame(w, Pushed(w, SmallBinAt(i), f, x), i, xs, x)
  {
    var b, w' := SmallBinAt(i), Pushed(w, SmallBinAt(i), f, x);
    HeaderRing(w, size, smallmap, xs, i);
    if xs == [] {
      assert [b] + ([x] + xs) == [b, x];
      assert Joined(w'.fd, w'.bk, [b, x], 0) && Joined(w'.fd, w'.bk, [b, x], 1);
    } else {
      RingInsert(w.fd, w.bk, b, xs, x);
      assert Joined(w.fd, w.bk, [b] + xs, 0);
    }
  }

  lemma HeaderRing(w: Words, size: Mem, smallmap: nat, xs: seq<nat>, i: nat)
    requires i < NSMALLBINS && SmallBinOk(w, size, smallmap, xs, i)
    ensures SmallBinAt(i) !in xs && NoRepeats([SmallBinAt(i)] + xs)
  {
    assert SmallBinAt(i) < FIRST_CHUNK;
  }

  /** Chunk number k leaves the list; it is the only one exactly when its two neighbours coincide. */
  lemma PopRing(w: Words, size: Mem, smallmap: nat, xs: seq<nat>, i: nat, k: nat)
    requires i < NSMALLBINS && SmallBinOk(w, size, smallmap, xs, i) && k < |xs|
    ensures w.fd.At(xs[k]) == w.bk.At(xs[k]) <==> |xs| == 1
    ensures k == 0 ==> w.bk.At(xs[k]) == SmallBinAt(i) && w.fd.At(SmallBinAt(i)) == xs[k]
    ensures k == 0 && |xs| == 1 ==> w.fd.At(xs[k]) == SmallBinAt(i)
    ensures k == 0 && |xs| != 1 ==> w.fd.At(xs[k]) != SmallBinAt(i)
    ensures |xs| != 1 ==> var w' := Unringed(w, xs[k]);
      && Circular(w'.fd, w'.bk, [SmallBinAt(i)] + (xs[..k] + xs[k + 1..]))
      && OthersSame(w, w', i, xs, xs[k])
  {
    var b := SmallBinAt(i);
    var ring := [b] + xs;
    HeaderRing(w, size, smallmap, xs, i);
    assert ring[k + 1] == xs[k];
    assert Joined(w.fd, w.bk, ring, k + 1) && Joined(w.fd, w.bk, ring, k);
    RingRemove(w.fd, w.bk, ring, k + 1);
    assert ring[..k + 1] + ring[k + 2..] == [b] + (xs[..k] + xs[k + 1..]);
    assert Following(ring, k + 1) == b || Following(ring, k + 1) in xs;
  }

  /** Writes to the list of small bin i, and to a chunk in no other bin, leave every other bin as it is. */
  lemma SmallWriteFrame(b: BinState, w': Words, smallmap': nat, size: Mem, i: nat, x: nat, j: nat)
    requires BinsOk(b, size) && i < NSMALLBINS && j < NTREEBINS && FIRST_CHUNK <= x
    requires OthersSame(b.w, w', i, b.small[i], x) && Count(b.trees[j], x) == 0
    requires j != i ==> x !in b.small[j] && Bit(smallmap', j) == Bit(b.smallmap, j)
    ensures TreeBinOk(w', size, b.treebins[j], b.treemap, b.trees[j], j)
    ensures j != i ==> SmallBinOk(w', size, smallmap', b.small[j], j)
  {
    assert SmallBinOk(b.w, size, b.smallmap, b.small[i], i);
    TreeApart(b.w, w', size, b.smallmap, b.treebins[j], b.treemap, b.trees[j], b.small[i], i, x, j);
    if j != i {
      ListApart(b.w, w', size, b.smallmap, smallmap', b.small[i], b.small[j], i, x, j);
    }
  }

  lemma TreeApart(w: Words, w': Words, size: Mem, smallmap: nat, root: nat, treemap: nat, t: Tree,
                  xs: seq<nat>, i: nat, x: nat, j: nat)
    requires j < NTREEBINS && TreeBinOk(w, size, root, treemap, t, j)
    requires i < NSMALLBINS && SmallBinOk(w, size, smallmap, xs, i)
    requires OthersSame(w, w', i, xs, x) && Count(t, x) == 0
    ensures TreeBinOk(w', size, root, treemap, t, j)
  {
    forall y | 0 < Count(t, y)
      ensures Same(w, w', y)
    {
      SizeTellsBin(w, size, root, TreeBinAt(j), t, j, y);
    }
    TreeBinFrame(w, w', size, size, root, treemap, treemap, t, j);
  }

  lemma ListApart(w: Words, w': Words, size: Mem, smallmap: nat, smallmap': nat,
                  xs: seq<nat>, ys: seq<nat>, i: nat, x: nat, j: nat)
    requires i < NSMALLBINS && j < NSMALLBINS && i != j
    requires SmallBinOk(w, size, smallmap, xs, i) && SmallBinOk(w, size, smallmap, ys, j)
    requires OthersSame(w, w', i, xs, x) && x !in ys && FIRST_CHUNK <= x && Bit(smallmap', j) == Bit(smallmap, j)
    ensures SmallBinOk(w', size, smallmap', ys, j)
  {
    forall y | y == SmallBinAt(j) || y in ys
      ensures Same(w, w', y)
    {
      assert y in xs ==> size.At(y) == 8 * i;
    }
    SmallBinFrame(w, w', size, size, smallmap, smallmap', ys, j);
  }

  lemma PushedBins(b: BinState, b': BinState, size: Mem, i: nat, x: nat, f: nat)
    requires BinsOk(b, size) && i < NSMALLBINS
    requires FIRST_CHUNK <= x && size.At(x) == 8 * i && !InTrees(b.trees, x) && !InLists(b.small, x)
    requires f == if b.small[i] == [] then SmallBinAt(i) else b.w.fd.At(SmallBinAt(i))
    requires b'.smallmap == if b.small[i] == [] then Or(b.smallmap, Idx2Bit(i)) else b.smallmap
    requires b'.w == Pushed(b.w, SmallBinAt(i), f, x) && b'.small == b.small[i := [x] + b.small[i]]
    requires b'.treemap == b.treemap && b'.treebins == b.treebins && b'.trees == b.trees
    ensures BinsOk(b', size)
  {
    assert SmallBinOk(b.w, size, b.smallmap, b.small[i], i);
    PushRing(b.w, size, b.smallmap, b.small[i], i, x, f);
    MarkClear(b.smallmap, i, i);
    forall j | 0 <= j < NTREEBINS
      ensures TreeBinOk(b'.w, size, b.treebins[j], b.treemap, b.trees[j], j)
      ensures j != i ==> SmallBinOk(b'.w, size, b'.smallmap, b.small[j], j)
    {
      MarkClear(b.smallmap, i, j);
      SmallWriteFrame(b, b'.w, b'.smallmap, size, i, x, j);
    }
  }

  lemma PoppedBins(b: BinState, b': BinState, size: Mem, i: nat, k: nat)
    requires BinsOk(b, size) && i < NSMALLBINS && k < |b.small[i]|
    requires b'.smallmap == if |b.small[i]| == 1 then And(b.smallmap, Not(Idx2Bit(i))) else b.smallmap
    requires b'.w == if |b.small[i]| == 1 then b.w else Unringed(b.w, b.small[i][k])
    requires b'.small == b.small[i := b.small[i][..k] + b.small[i][k + 1..]]
    requires b'.treemap == b.treemap && b'.treebins == b.treebins && b'.trees == b.trees
    ensures BinsOk(b', size)
  {
    var xs, x := b.small[i], b.small[i][k];
    var xs' := xs[..k] + xs[k + 1..];
    assert SmallBinOk(b.w, size, b.smallmap, xs, i);
    PopRing(b.w, size, b.smallmap, xs, i, k);
    MarkClear(b.smallmap, i, i);
    assert forall j :: 0 <= j < |xs'| ==> xs'[j] == xs[if j < k then j else j + 1];
    assert forall y :: y in xs' ==> y in xs;
    assert SmallBinOk(b'.w, size, b'.smallmap, xs', i);
    forall j | 0 <= j < NTREEBINS
      ensures TreeBinOk(b'.w, size, b.treebins[j], b.treemap, b.trees[j], j)
      ensures j != i ==> SmallBinOk(b'.w, size, b'.smallmap, b.small[j], j)
    {
      MarkClear(b.smallmap, i, j);
      ListedNotElsewhere(b, size, i, x, j);
      SmallWriteFrame(b, b'.w, b'.smallmap, size, i, x, j);
    }
  }

  /** A chunk of small bin i is in no other bin. */
  lemma ListedNotElsewhere(b: BinState, size: Mem, i: nat, x: nat, j: nat)
    requires BinsOk(b, size) && i < NSMALLBINS && j < NTREEBINS && x in b.small[i]
    ensures FIRST_CHUNK <= x && Count(b.trees[j], x) == 0 && (j != i ==> x !in b.small[j])
  {
    assert SmallBinOk(b.w, size, b.smallmap, b.small[i], i);
    assert SmallBinOk(b.w, size, b.smallmap, b.small[j], j);
    assert TreeBinOk(b.w, size, b.treebins[j], b.treemap, b.trees[j], j);
    if 0 < Count(b.trees[j], x) {
      SizeTellsBin(b.w, size, b.treebins[j], TreeBinAt(j), b.trees[j], j, x);
    }
  }
}

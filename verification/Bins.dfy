/** The bins of an allocator state: 32 lists of small chunks and 32 tries of large ones, and the two maps
    that say which are not empty. A chunk is in one bin at most, and its size tells which. */
module Bins {
  import opened BinIndex
  import opened BitWords
  import opened SizeTrie
  import opened Links

  /** The allocator state lies below every chunk: a list header per small bin, a root per tree bin. */
  const SMALLBINS: nat := 1024
  const TREEBINS: nat := 2048
  const FIRST_CHUNK: nat := 4096

  function SmallBinAt(i: nat): nat {
    SMALLBINS + 8 * i
  }

  function TreeBinAt(i: nat): nat {
    TREEBINS + 4 * i
  }

  /** Every node of the tree belongs to tree bin i. */
  ghost predicate OfBin(t: Tree, i: nat) {
    t.Node? ==>
      && MIN_LARGE_SIZE <= t.size < WORD && t.size % 8 == 0 && TreeIndex(t.size) == i
      && OfBin(t.left, i) && OfBin(t.right, i)
  }

  /** Tree bin i holds tree t; its map bit is set if and only if the tree is not empty. */
  ghost predicate TreeBinOk(w: Words, size: Mem, root: nat, binmap: nat, t: Tree, i: nat)
    requires i < NTREEBINS
  {
    && (Bit(binmap, i) <==> t.Node?)
    && Repr(w, size, root, TreeBinAt(i), t, i)
    && Distinct(t) && Trie(t, BinLow(i), BinBits(i)) && OfBin(t, i)
    && (forall x :: 0 < Count(t, x) ==> FIRST_CHUNK <= x)
  }

  /** Small bin i holds the chunks xs, all of its one size, in a ring with the list header. The
      header's links mean nothing while the map bit is clear. */
  ghost predicate SmallBinOk(w: Words, size: Mem, binmap: nat, xs: seq<nat>, i: nat) {
    && (Bit(binmap, i) <==> xs != [])
    && (xs != [] ==> Circular(w.fd, w.bk, [SmallBinAt(i)] + xs))
    && NoRepeats(xs)
    && (forall x :: x in xs ==> FIRST_CHUNK <= x && size.At(x) == 8 * i)
  }

  /** The words of the bins, and the lists and tries that these are to hold. */
  datatype BinState = BinState(w: Words, smallmap: nat, treemap: nat, treebins: seq<nat>, small: seq<seq<nat>>, trees: seq<Tree>)

  ghost predicate BinsOk(b: BinState, size: Mem) {
    && b.smallmap < WORD && b.treemap < WORD
    && |b.treebins| == |b.trees| == NTREEBINS && |b.small| == NSMALLBINS
    && (forall i :: 0 <= i < NTREEBINS ==> TreeBinOk(b.w, size, b.treebins[i], b.treemap, b.trees[i], i))
    && (forall i :: 0 <= i < NSMALLBINS ==> SmallBinOk(b.w, size, b.smallmap, b.small[i], i))
  }

  ghost predicate InTrees(trees: seq<Tree>, x: nat) {
    exists i :: 0 <= i < |trees| && 0 < Count(trees[i], x)
  }

  ghost predicate InLists(small: seq<seq<nat>>, x: nat) {
    exists i :: 0 <= i < |small| && x in small[i]
  }

  /** The size of a chunk in a tree tells the bin. */
  lemma {:induction false} SizeTellsBin(w: Words, size: Mem, a: nat, par: nat, t: Tree, i: nat, x: nat)
    requires Repr(w, size, a, par, t, i) && OfBin(t, i) && 0 < Count(t, x)
    ensures MIN_LARGE_SIZE <= size.At(x) < WORD && size.At(x) % 8 == 0 && TreeIndex(size.At(x)) == i
    ensures Has(t, size.At(x))
    decreases t
  {
    if !t.Keeps(x) {
      if 0 < Count(t.left, x) {
        SizeTellsBin(w, size, w.left.At(a), a, t.left, i, x);
      } else {
        SizeTellsBin(w, size, w.right.At(a), a, t.right, i, x);
      }
    }
  }

  /** A tree bin none of whose chunks is written keeps its tree. */
  lemma TreeBinFrame(w: Words, w': Words, size: Mem, size': Mem, root: nat, binmap: nat, binmap': nat, t: Tree, i: nat)
    requires i < NTREEBINS && TreeBinOk(w, size, root, binmap, t, i) && Bit(binmap', i) == Bit(binmap, i)
    requires forall y :: 0 < Count(t, y) ==> Same(w, w', y) && size'.At(y) == size.At(y)
    ensures TreeBinOk(w', size', root, binmap', t, i)
  {
    ReprKept(w, w', size, size', root, TreeBinAt(i), t, i, 0);
  }

  lemma SmallBinFrame(w: Words, w': Words, size: Mem, size': Mem, binmap: nat, binmap': nat, xs: seq<nat>, i: nat)
    requires SmallBinOk(w, size, binmap, xs, i) && Bit(binmap', i) == Bit(binmap, i)
    requires forall y :: y == SmallBinAt(i) || y in xs ==> Same(w, w', y)
    requires forall y :: y in xs ==> size'.At(y) == size.At(y)
    ensures SmallBinOk(w', size', binmap', xs, i)
  {
    if xs != [] {
      var ring := [SmallBinAt(i)] + xs;
      forall j | 0 <= j < |ring|
        ensures Joined(w'.fd, w'.bk, ring, j)
      {
        assert Joined(w.fd, w.bk, ring, j);
        assert ring[j] == SmallBinAt(i) || ring[j] in xs;
        assert Following(ring, j) == SmallBinAt(i) || Following(ring, j) in xs;
        assert Same(w, w', ring[j]) && Same(w, w', Following(ring, j));
      }
    }
  }

  /** Writes to chunks of one tree bin, and to one chunk that is in no other bin, leave every other
      bin as it is. */
  lemma TreeWriteFrame(b: BinState, w': Words, treemap': nat, size: Mem, i: nat, x: nat, j: nat)
    requires BinsOk(b, size) && i < NTREEBINS && j < NTREEBINS && FIRST_CHUNK <= x
    requires forall y :: Count(b.trees[i], y) == 0 && y != x ==> Same(b.w, w', y)
    requires j != i ==> Count(b.trees[j], x) == 0 && Bit(treemap', j) == Bit(b.treemap, j)
    requires x !in b.small[j]
    ensures j != i ==> TreeBinOk(w', size, b.treebins[j], treemap', b.trees[j], j)
    ensures SmallBinOk(w', size, b.smallmap, b.small[j], j)
  {
    assert TreeBinOk(b.w, size, b.treebins[i], b.treemap, b.trees[i], i);
    assert TreeBinOk(b.w, size, b.treebins[j], b.treemap, b.trees[j], j);
    assert SmallBinOk(b.w, size, b.smallmap, b.small[j], j);
    if j != i {
      forall y | 0 < Count(b.trees[j], y)
        ensures Same(b.w, w', y)
      {
        SizeTellsBin(b.w, size, b.treebins[j], TreeBinAt(j), b.trees[j], j, y);
        if 0 < Count(b.trees[i], y) {
          SizeTellsBin(b.w, size, b.treebins[i], TreeBinAt(i), b.trees[i], i, y);
        }
      }
      TreeBinFrame(b.w, w', size, size, b.treebins[j], b.treemap, treemap', b.trees[j], j);
    }
    forall y | y == SmallBinAt(j) || y in b.small[j]
      ensures Same(b.w, w', y)
    {
      if 0 < Count(b.trees[i], y) {
        SizeTellsBin(b.w, size, b.treebins[i], TreeBinAt(i), b.trees[i], i, y);
      }
    }
    SmallBinFrame(b.w, w', size, size, b.smallmap, b.smallmap, b.small[j], j);
  }

  /** A chunk of tree bin i is in no other bin. */
  lemma NotElsewhere(b: BinState, size: Mem, i: nat, x: nat, j: nat)
    requires BinsOk(b, size) && i < NTREEBINS && j < NTREEBINS && 0 < Count(b.trees[i], x)
    ensures FIRST_CHUNK <= x && x !in b.small[j] && (j != i ==> Count(b.trees[j], x) == 0)
  {
    assert TreeBinOk(b.w, size, b.treebins[i], b.treemap, b.trees[i], i);
    assert TreeBinOk(b.w, size, b.treebins[j], b.treemap, b.trees[j], j);
    assert SmallBinOk(b.w, size, b.smallmap, b.small[j], j);
    SizeTellsBin(b.w, size, b.treebins[i], TreeBinAt(i), b.trees[i], i, x);
    if 0 < Count(b.trees[j], x) {
      SizeTellsBin(b.w, size, b.treebins[j], TreeBinAt(j), b.trees[j], j, x);
    }
  }

  /** A walk down the tree of bin i meets at most one node per undetermined bit of the size, less the
      low bits that the alignment fixes. */
  lemma BinHeight(w: Words, size: Mem, root: nat, binmap: nat, t: Tree, i: nat)
    requires i < NTREEBINS && TreeBinOk(w, size, root, binmap, t, i)
    ensures Height(t) <= BinBits(i) - 2
    ensures forall lefts :: Walked(t, lefts).Node? ==> |lefts| < if i == 31 then 30 else i / 2 + 5
  {
    OfBinIsAligned(t, i);
    if i < NTREEBINS - 1 {
      BinLowIsMultiple(i);
      Pow2Multiple(BinBits(i));
      TimesMultiple(if i % 2 == 0 then 2 else 3, Pow2(BinBits(i)));
    }
    HeightBound(t, BinLow(i), BinBits(i));
    forall lefts | Walked(t, lefts).Node?
      ensures |lefts| < Height(t)
    {
      WalkIsShort(t, lefts);
    }
  }

  lemma TimesMultiple(c: nat, p: nat)
    requires p % 8 == 0 && 2 <= c <= 3
    ensures (c * p) % 8 == 0
  {}

  lemma {:induction false} OfBinIsAligned(t: Tree, i: nat)
    requires OfBin(t, i)
    ensures Aligned(t)
  {
    if t.Node? {
      OfBinIsAligned(t.left, i);
      OfBinIsAligned(t.right, i);
    }
  }
}

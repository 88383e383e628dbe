/** The allocator on one segment. The fields are the words of the allocator state and of the chunks; the
    invariant is that the chunks tile the segment with no two free neighbours, that the tags of neighbours
    agree, and that a free chunk is top, the designated victim or in the bin of its size. Requests that would
    need top are answered with zero. */
module Heap {
  import opened BinIndex
  import opened BitWords
  import opened SizeTrie
  import opened Links
  import opened TreeWrites
  import opened Bins
  import opened TreeInsert
  import opened TreeUnlink
  import opened SmallBins
  import opened BestFit
  import opened Tiles
  import opened Placement
  import opened TopArms

  class Heap {
    var size: Mem
    var foot: Mem
    var cinuse: set<nat>
    var pinuse: set<nat>
    var dv: nat
    var dvsize: nat
    var top: nat
    var topsize: nat
    var links: Words
    var smallmap: nat
    var treemap: nat
    var treebins: seq<nat>
    ghost var small: seq<seq<nat>>
    ghost var trees: seq<Tree>
    ghost var chunks: set<nat>
    ghost const base: nat
    ghost const fence: nat

    ghost predicate Binned()
      reads this
    {
      BinsOk(BinsNow(), size)
    }

    ghost function BinsNow(): BinState
      reads `links, `smallmap, `treemap, `treebins, `small, `trees
    {
      BinState(links, smallmap, treemap, treebins, small, trees)
    }

    /** The chunks, with top and the designated victim. */
    ghost function Seg(): Segment
      reads `chunks, `top, `topsize, `dv, `dvsize
    {
      Segment(chunks, base, fence, top, topsize, dv, dvsize)
    }

    /** init_bins and the segment set-up: all of base .. fence is top, and every bin is empty. */
    constructor (start: nat, end: nat)
      requires FIRST_CHUNK <= start && start + MIN_CHUNK_SIZE <= end < WORD && start % 8 == 0 && end % 8 == 0
      ensures Valid() && base == start && fence == end && top == base && dv == 0
      ensures forall c: nat :: !InUse(c)
    {
      base, fence := start, end;
      size, foot := Mem(map[start := end - start]), Mem(map[]);
      cinuse, pinuse := {end}, {start};
      dv, dvsize, top, topsize := 0, 0, start, end - start;
      links := Words(Mem(map[]), Mem(map[]), Mem(map[]), Mem(map[]), Mem(map[]), Mem(map[]));
      smallmap, treemap := 0, 0;
      treebins := seq(NTREEBINS, i => 0);
      small, trees := seq(NSMALLBINS, i => []), seq(NTREEBINS, i => Nil);
      chunks := {start, end};
      new;
      EmptyBins(BinsNow(), size);
      assert Tile(Now(), chunks, fence, top, start);
    }

    ghost function Now(): Tags
      reads this
    {
      Tags(size, foot, cinuse, pinuse)
    }

    /** The chunks tile the segment, and every free one is top, the designated victim or in its bin. */
    ghost predicate Valid()
      reads this
    {
      InOrder(BinsNow(), Now(), Seg(), {})
    }

    /** A heap whose words are as given. */
    constructor Given(h: Tags, g: Segment, b: BinState)
      requires InOrder(b, h, g, {})
      ensures Valid() && Now() == h && Seg() == g && BinsNow() == b
    {
      base, fence := g.base, g.fence;
      size, foot, cinuse, pinuse := h.size, h.foot, h.cinuse, h.pinuse;
      dv, dvsize, top, topsize, chunks := g.dv, g.dvsize, g.top, g.topsize, g.chunks;
      links, smallmap, treemap, treebins, small, trees := b.w, b.smallmap, b.treemap, b.treebins, b.small, b.trees;
    }

    ghost predicate InUse(c: nat)
      reads this
    {
      Live(Now(), chunks, fence, c)
    }

    /** Links chunk x of size s into its tree bin. */
    method InsertLarge(x: nat, s: nat)
      requires Binned() && FIRST_CHUNK <= x && !InTrees(trees, x) && !InLists(small, x)
      requires size.At(x) == s && MIN_LARGE_SIZE <= s < WORD && s % 8 == 0
      modifies `links, `treemap, `treebins, `trees
      ensures Binned() && TreeIndex(s) < |old(trees)|
      ensures var i := TreeIndex(s);
        trees == old(trees)[i := Insert(old(trees)[i], BinLow(i), BinBits(i), s, x)]
    {
      BinRange(s);
      var i := TreeIndex(s);
      assert TreeBinOk(links, size, treebins[i], treemap, trees[i], i);
      LinkInto(i, x, s, trees[i]);
      trees := trees[i := Insert(trees[i], BinLow(i), BinBits(i), s, x)];
      InsertedBins(old(BinsNow()), BinsNow(), size, s, x);
    }

    /** Chunk x joins the tree of bin i, or becomes its root. */
    method LinkInto(i: nat, x: nat, s: nat, ghost tree: Tree)
      requires MIN_LARGE_SIZE <= s < WORD && i == TreeIndex(s) < NTREEBINS == |treebins|
      requires TreeBinOk(links, size, treebins[i], treemap, tree, i) && x != 0 && Count(tree, x) == 0 && size.At(x) == s
      modifies `links, `treemap, `treebins
      ensures |treebins| == NTREEBINS && treebins == old(treebins)[i := treebins[i]]
      ensures (treemap == old(treemap) && Bit(treemap, i)) || treemap == Or(old(treemap), Idx2Bit(i))
      ensures Repr(links, size, treebins[i], TreeBinAt(i), Insert(tree, BinLow(i), BinBits(i), s, x), i)
      ensures forall y :: Count(tree, y) == 0 && y != x ==> Same(old(links), links, y)
    {
      MaskedBit(treemap, i);
      links := Cleared(links, x, i);
      if And(treemap, Idx2Bit(i)) == 0 {
        OpenBin(i, x, s, old(links));
      } else {
        LinkBelowRoot(i, x, s, old(links), tree);
      }
    }

    /** The first chunk of a bin becomes the root of its tree. */
    method OpenBin(i: nat, x: nat, s: nat, ghost w: Words)
      requires i < NTREEBINS == |treebins| && x != 0 && size.At(x) == s && links == Cleared(w, x, i)
      modifies `links, `treemap, `treebins
      ensures treemap == Or(old(treemap), Idx2Bit(i)) && treebins == old(treebins)[i := x]
      ensures Repr(links, size, x, TreeBinAt(i), Insert(Nil, BinLow(i), BinBits(i), s, x), i)
      ensures forall y :: y != x ==> Same(w, links, y)
    {
      treemap := Or(treemap, Idx2Bit(i));
      treebins := treebins[i := x];
      links := Alone(links, x, TreeBinAt(i));
      LeafRepr(links, size, x, TreeBinAt(i), i);
    }

    /** Walks down a non-empty tree, one bit of the size at each level, to the node of this size or to
        the free place for one. */
    method LinkBelowRoot(i: nat, x: nat, s: nat, ghost w: Words, ghost tree: Tree)
      requires MIN_LARGE_SIZE <= s < WORD && i == TreeIndex(s) < NTREEBINS && i < |treebins|
      requires TreeBinOk(w, size, treebins[i], treemap, tree, i) && tree.Node?
      requires x != 0 && Count(tree, x) == 0 && size.At(x) == s && links == Cleared(w, x, i)
      modifies `links
      ensures Repr(links, size, treebins[i], TreeBinAt(i), Insert(tree, BinLow(i), BinBits(i), s, x), i)
      ensures forall y :: Count(tree, y) == 0 && y != x ==> Same(w, links, y)
    {
      WalkStarts(tree, s, x);
      var t: nat := treebins[i];
      var k: nat := ShiftLeft(s, LeftShift(i));
      ghost var n, low: nat, bits: nat := tree, BinLow(i), BinBits(i);
      while true
        invariant Walking(tree, i, s, x, t, n, low, bits, k)
        invariant links == Cleared(w, x, i)
        decreases n
      {
        WalkSeen(w, size, treebins[i], tree, i, s, x, t, n, low, bits, k);
        if size.At(t) == s {
          JoinedTree(w, size, treebins[i], tree, i, s, x, t);
          links := Joining(links, t, x);
          return;
        }
        ghost var low', bits', k' := WalkStep(links, tree, i, s, x, t, n, low, bits, k);
        var onLeft := k / 0x8000_0000 == 0;
        var c := if onLeft then links.left.At(t) else links.right.At(t);
        if c == 0 {
          AttachedTree(w, size, treebins[i], tree, i, s, x, t, onLeft);
          links := Alone(ChildLink(links, t, onLeft, x), x, t);
          return;
        }
        k := (2 * k) % WORD;
        low, bits := low', bits';
        n := if onLeft then n.left else n.right;
        t := c;
      }
    }

    /** Takes chunk x out of its tree bin. */
    method UnlinkLarge(x: nat, ghost i: nat)
      requires Binned() && i < NTREEBINS && 0 < Count(trees[i], x)
      modifies `links, `treemap, `treebins, `trees
      ensures Binned() && trees == old(trees)[i := Remove(old(trees)[i], x)]
    {
      assert TreeBinOk(links, size, treebins[i], treemap, trees[i], i);
      UnlinkFromTree(x, i, trees[i]);
      HeadIsNotNull(links, size, treebins[i], TreeBinAt(i), Remove(trees[i], x), i);
      trees := trees[i := Remove(trees[i], x)];
      RemovedBins(old(BinsNow()), BinsNow(), size, i, x);
    }

    method UnlinkFromTree(x: nat, ghost i: nat, ghost tree: Tree)
      requires i < NTREEBINS == |treebins| && TreeBinOk(links, size, treebins[i], treemap, tree, i)
      requires 0 < Count(tree, x)
      modifies `links, `treemap, `treebins
      ensures |treebins| == NTREEBINS && treebins == old(treebins)[i := treebins[i]]
      ensures treemap == if treebins[i] == 0 then And(old(treemap), Not(Idx2Bit(i))) else old(treemap)
      ensures Repr(links, size, treebins[i], TreeBinAt(i), Remove(tree, x), i)
      ensures forall y :: Count(tree, y) == 0 ==> Same(old(links), links, y)
    {
      ghost var w := links;
      UnlinkView(w, size, treebins[i], TreeBinAt(i), tree, i, x);
      HeadIsNotNull(w, size, treebins[i], TreeBinAt(i), tree, i);
      var xp := links.parent.At(x);
      var r := 0;
      if links.bk.At(x) != x {
        r := links.bk.At(x);
        RingClosed(w, size, treebins[i], TreeBinAt(i), tree, i, x);
        links := Unringed(links, x);
      } else {
        r := CutReplacement(x, Find(tree, x), i);
      }
      if xp != 0 {
        assert Count(tree, TreeBinAt(i)) == 0;
        UnlinkedNode(w, links, size, treebins[i], TreeBinAt(i), tree, i, x);
        Succeed(x, xp, r, i);
      }
    }

    /** The last chunk of its size: the rightmost leaf below it is cut off to replace it. */
    method CutReplacement(x: nat, ghost n: Tree, ghost i: nat) returns (r: nat)
      requires n.Node? && n.head == x && n.others == [] && Distinct(n)
      requires Repr(links, size, x, links.parent.At(x), n, i)
      modifies `links
      ensures Prepared(old(links), links, size, n, i)
      ensures r == if Drop(n, x).Node? then Drop(n, x).head else 0
    {
      ghost var w := links;
      WalkRightStarts(w, size, w.parent.At(x), n, i);
      var p, onLeft := x, false;
      r := links.right.At(x);
      if r == 0 {
        onLeft := true;
        r := links.left.At(x);
      }
      if r != 0 {
        ghost var m := DeepSide(n);
        while true
          invariant WalkingRight(w, n, m, r, p, onLeft) && links == w
          decreases m
        {
          WalkRightStep(w, size, w.parent.At(x), n, i, m, r, p, onLeft);
          if links.right.At(r) != 0 {
            p, onLeft, r, m := r, false, links.right.At(r), m.right;
          } else if links.left.At(r) != 0 {
            p, onLeft, r, m := r, true, links.left.At(r), m.left;
          } else {
            break;
          }
        }
        links := ChildLink(links, p, onLeft, 0);
        PreparedByLeaf(w, size, w.parent.At(x), n, i, p, onLeft);
      }
    }

    /** The link above x goes to r, which takes over its place. */
    method Succeed(x: nat, xp: nat, r: nat, ghost i: nat)
      requires i < NTREEBINS == |treebins| && links.bin.At(x) == i
      modifies `links, `treemap, `treebins
      ensures links == Succeeded(old(links), old(treebins)[i], x, xp, r)
      ensures treebins == if x == old(treebins)[i] then old(treebins)[i := r] else old(treebins)
      ensures treemap == if x == old(treebins)[i] && r == 0 then And(old(treemap), Not(Idx2Bit(i))) else old(treemap)
    {
      var h := links.bin.At(x);
      if x == treebins[h] {
        treebins := treebins[h := r];
        if r == 0 {
          treemap := And(treemap, Not(Idx2Bit(h)));
        }
      } else {
        links := ChildLink(links, xp, links.left.At(xp) == x, r);
      }
      if r != 0 {
        links := Relinked(links, x, r, xp);
      }
    }

    /** Links chunk x into its small bin, at the front of the list. */
    method InsertSmall(x: nat, s: nat)
      requires Binned() && FIRST_CHUNK <= x && !InTrees(trees, x) && !InLists(small, x)
      requires size.At(x) == s && s < MIN_LARGE_SIZE && s % 8 == 0
      modifies `links, `smallmap, `small
      ensures Binned() && s / 8 < |old(small)| && small == old(small)[s / 8 := [x] + old(small)[s / 8]]
    {
      var i := s / 8;
      var b := SmallBinAt(i);
      var f := b;
      MaskedBit(smallmap, i);
      assert SmallBinOk(links, size, smallmap, small[i], i);
      if And(smallmap, Idx2Bit(i)) == 0 {
        smallmap := Or(smallmap, Idx2Bit(i));
      } else {
        f := links.fd.At(b);
      }
      links := Pushed(links, b, f, x);
      small := small[i := [x] + small[i]];
      PushedBins(old(BinsNow()), BinsNow(), size, i, x, f);
    }

    /** Takes chunk x out of its small bin. */
    method UnlinkSmall(x: nat, s: nat, ghost k: nat)
      requires Binned() && s < MIN_LARGE_SIZE && s % 8 == 0
      requires k < |small[s / 8]| && small[s / 8][k] == x
      modifies `links, `smallmap, `small
      ensures Binned() && s / 8 < |old(small)|
      ensures small == old(small)[s / 8 := old(small)[s / 8][..k] + old(small)[s / 8][k + 1..]]
    {
      var i := s / 8;
      assert SmallBinOk(links, size, smallmap, small[i], i);
      PopRing(links, size, smallmap, small[i], i, k);
      if links.fd.At(x) == links.bk.At(x) {
        smallmap := And(smallmap, Not(Idx2Bit(i)));
      } else {
        links := Unringed(links, x);
      }
      small := small[i := small[i][..k] + small[i][k + 1..]];
      PoppedBins(old(BinsNow()), BinsNow(), size, i, k);
    }

    /** Takes the first chunk out of small bin i. */
    method UnlinkFirstSmall(i: nat) returns (p: nat)
      requires Binned() && i < NSMALLBINS && small[i] != []
      modifies `links, `smallmap, `small
      ensures Binned() && i < |old(small)| && old(small)[i] != [] && p == old(small)[i][0]
      ensures small == old(small)[i := old(small)[i][1..]]
    {
      var b := SmallBinAt(i);
      assert SmallBinOk(links, size, smallmap, small[i], i);
      PopRing(links, size, smallmap, small[i], i, 0);
      p := links.fd.At(b);
      var f := links.fd.At(p);
      if b == f {
        smallmap := And(smallmap, Not(Idx2Bit(i)));
      } else {
        links := links.(fd := links.fd.Set(b, f), bk := links.bk.Set(f, b));
      }
      assert small[i][..0] + small[i][1..] == small[i][1..];
      small := small[i := small[i][1..]];
      PoppedBins(old(BinsNow()), BinsNow(), size, i, 0);
    }

    /** The node at t becomes the best fit if its remainder is smaller, in unsigned arithmetic. */
    method Consider(t: nat, nb: nat, v: nat, rsize: nat, ghost n: Tree, ghost i: nat, ghost root: nat, ghost tree: Tree)
        returns (v': nat, rsize': nat)
      requires Repr(links, size, root, TreeBinAt(i), tree, i) && Distinct(tree) && OfBin(tree, i)
      requires AtNode(tree, t, n) && n.Node? && 0 < nb < WORD && GoodFit(size, tree, nb, v, rsize)
      ensures Considered(n, nb, v, rsize, v', rsize') && GoodFit(size, tree, nb, v', rsize')
      ensures n.head != 0 && (v == 0 ==> n.size - nb < rsize) && (rsize' == 0 ==> v' != 0)
      ensures AtNode(tree, links.left.At(t), n.left) && AtNode(tree, links.right.At(t), n.right)
      ensures links.left.At(t) == links.right.At(t) ==> links.left.At(t) == 0
      ensures n.left.Nil? <==> links.left.At(t) == 0
      ensures n.right.Nil? <==> links.right.At(t) == 0
    {
      NodeSeen(links, size, root, tree, i, t, n);
      WrappedDifference(n.size, nb, rsize);
      var trem := (size.At(t) - nb) % WORD;
      if trem < rsize {
        return t, trem;
      }
      return v, rsize;
    }

    /** The walk down the tree of the request's own size: the best fit on the path, and the smallest
        subtree of larger sizes off it. */
    method WalkOwnBin(nb: nat, idx: nat) returns (v: nat, rsize: nat, t: nat, ghost r: Tree)
      requires MIN_LARGE_SIZE <= nb < WORD && idx == TreeIndex(nb) < NTREEBINS == |treebins|
      requires |trees| == NTREEBINS && TreeBinOk(links, size, treebins[idx], treemap, trees[idx], idx)
      requires treebins[idx] != 0
      ensures AtNode(trees[idx], t, r) && GoodFit(size, trees[idx], nb, v, rsize)
      ensures Rest(trees[idx], nb, v, rsize, r)
    {
      ghost var tree, root := trees[idx], treebins[idx];
      SteersFromRoot(nb);
      OwnWalkStarts(size, tree, nb, root);
      t, v, rsize, r := treebins[idx], 0, WORD - nb, Nil;
      var rst: nat := 0;
      var sizebits: nat := ShiftLeft(nb, LeftShift(idx));
      ghost var n, low: nat, bits: nat := tree, BinLow(idx), BinBits(idx);
      while true
        invariant OwnWalk(tree, nb, v, rsize, n, r, low, bits) && Steers(sizebits, nb, low, bits)
        invariant AtNode(tree, t, n) && AtNode(tree, rst, r) && GoodFit(size, tree, nb, v, rsize)
        invariant rsize != 0
        decreases n
      {
        ghost var v0, rsize0 := v, rsize;
        v, rsize := Consider(t, nb, v, rsize, n, idx, root, tree);
        if rsize == 0 {
          ExactFit(tree, nb, v0, rsize0, n, low, bits, v);
          r := n;
          return;
        }
        ghost var word;
        n, r, low, bits, word := OwnStep(tree, nb, v0, rsize0, t, n, rst, r, low, bits, sizebits,
                                         links.left.At(t), links.right.At(t), v, rsize);
        var rt := links.right.At(t);
        t := if sizebits / 0x8000_0000 == 0 then links.left.At(t) else links.right.At(t);
        if rt != 0 && rt != t {
          rst := rt;
        }
        if t == 0 {
          t := rst;
          return;
        }
        sizebits := (2 * sizebits) % WORD;
      }
    }

    /** The walk to the smallest chunk of a subtree. */
    method WalkLeftmost(nb: nat, t0: nat, v0: nat, rsize0: nat, ghost i: nat, ghost n0: Tree)
        returns (v: nat, rsize: nat)
      requires 0 < nb < WORD && i < NTREEBINS == |treebins| && |trees| == NTREEBINS
      requires TreeBinOk(links, size, treebins[i], treemap, trees[i], i)
      requires AtNode(trees[i], t0, n0) && GoodFit(size, trees[i], nb, v0, rsize0)
      requires Rest(trees[i], nb, v0, rsize0, n0)
      ensures GoodFit(size, trees[i], nb, v, rsize) && Rest(trees[i], nb, v, rsize, Nil)
      ensures v == 0 ==> v0 == 0 && t0 == 0
    {
      var t: nat := t0;
      ghost var n := n0;
      v, rsize := v0, rsize0;
      NullIsNil(links, size, treebins[i], trees[i], i, t, n);
      while t != 0
        invariant AtNode(trees[i], t, n) && GoodFit(size, trees[i], nb, v, rsize) && (t == 0 <==> n.Nil?)
        invariant Rest(trees[i], nb, v, rsize, n)
        invariant v == 0 ==> v0 == 0 && t == t0
        decreases n
      {
        ghost var v1, rsize1 := v, rsize;
        v, rsize := Consider(t, nb, v, rsize, n, i, treebins[i], trees[i]);
        LeftmostStep(trees[i], nb, v1, rsize1, n, v, rsize);
        t := if links.left.At(t) != 0 then links.left.At(t) else links.right.At(t);
        n := LeftmostChild(n);
      }
    }

    /** The search of a large request: the best fitting chunk among all tree bins, or none. */
    method FindFit(nb: nat) returns (v: nat, rsize: nat, ghost i: nat)
      requires Binned() && MIN_LARGE_SIZE <= nb < WORD
      ensures i < NTREEBINS && GoodFit(size, trees[i], nb, v, rsize) && (v != 0 ==> nb + rsize < WORD)
      ensures Best(trees, nb, v, rsize)
    {
      var t: nat;
      ghost var r;
      v, rsize, t, i, r := SearchStart(nb);
      assert TreeBinOk(links, size, treebins[i], treemap, trees[i], i);
      v, rsize := WalkLeftmost(nb, t, v, rsize, i, r);
      LookedInBins(BinsNow(), size, nb, i, v, rsize);
    }

    /** The search up to its last walk. */
    method SearchStart(nb: nat) returns (v: nat, rsize: nat, t: nat, ghost i: nat, ghost r: Tree)
      requires Binned() && MIN_LARGE_SIZE <= nb < WORD
      ensures TreeIndex(nb) <= i < NTREEBINS && AtNode(trees[i], t, r)
      ensures GoodFit(size, trees[i], nb, v, rsize) && Rest(trees[i], nb, v, rsize, r)
      ensures Skipped(trees, nb, i)
      ensures t == 0 && v == 0 ==> i == TreeIndex(nb) && forall j :: TreeIndex(nb) < j < |trees| ==> trees[j].Nil?
    {
      var idx := TreeIndex(nb);
      v, rsize, t, r := SearchOwnBin(nb, idx);
      i := idx;
      if t == 0 && v == 0 {
        t, i := NextBin(nb, idx);
        r := if t == 0 then Nil else trees[i];
      }
    }

    method SearchOwnBin(nb: nat, idx: nat) returns (v: nat, rsize: nat, t: nat, ghost r: Tree)
      requires Binned() && MIN_LARGE_SIZE <= nb < WORD && idx == TreeIndex(nb)
      ensures idx < NTREEBINS && AtNode(trees[idx], t, r) && GoodFit(size, trees[idx], nb, v, rsize)
      ensures Rest(trees[idx], nb, v, rsize, r) && (t == 0 <==> r.Nil?)
    {
      BinRange(nb);
      assert TreeBinOk(links, size, treebins[idx], treemap, trees[idx], idx);
      HeadIsNotNull(links, size, treebins[idx], TreeBinAt(idx), trees[idx], idx);
      v, rsize, t, r := 0, WORD - nb, 0, Nil;
      if treebins[idx] != 0 {
        v, rsize, t, r := WalkOwnBin(nb, idx);
      } else {
        EmptyRest(trees[idx], nb, v, rsize);
      }
      NullIsNil(links, size, treebins[idx], trees[idx], idx, t, r);
    }

    /** The root of the next non-empty tree bin above bin idx. */
    method NextBin(nb: nat, idx: nat) returns (t: nat, ghost i: nat)
      requires Binned() && MIN_LARGE_SIZE <= nb < WORD && idx == TreeIndex(nb) < NTREEBINS
      requires Rest(trees[idx], nb, 0, WORD - nb, Nil)
      ensures idx <= i < NTREEBINS && Skipped(trees, nb, i)
      ensures t == 0 ==> i == idx && forall j :: idx < j < NTREEBINS ==> trees[j].Nil?
      ensures t != 0 ==> idx < i && trees[i].Node? && AtNode(trees[i], t, trees[i]) && Rest(trees[i], nb, 0, WORD - nb, trees[i])
    {
      var leftbits := And(LeftBits(Idx2Bit(idx)), treemap);
      NextMarked(treemap, idx);
      forall j | 0 <= j < NTREEBINS
        ensures Bit(treemap, j) <==> trees[j].Node?
      {
        assert TreeBinOk(links, size, treebins[j], treemap, trees[j], j);
      }
      i, t := idx, 0;
      if leftbits != 0 {
        var k := BitScan(LeastBit(leftbits));
        t := treebins[k];
        i := k;
        assert TreeBinOk(links, size, treebins[k], treemap, trees[k], k);
        HeadIsNotNull(links, size, t, TreeBinAt(k), trees[k], k);
        HigherTree(size, trees[k], nb, t, k);
      }
    }

    /** insert_chunk: the size decides the bin. */
    method InsertChunk(x: nat, s: nat)
      requires Binned() && FIRST_CHUNK <= x && !InBins(small, trees, x)
      requires size.At(x) == s && s < WORD && s % 8 == 0
      modifies `links, `smallmap, `small, `treemap, `treebins, `trees
      ensures Binned()
      ensures forall y: nat :: InBins(small, trees, y) <==> old(InBins(small, trees, y)) || y == x
    {
      if s / 8 < NSMALLBINS {
        InsertSmall(x, s);
        forall y: nat
          ensures InLists(small, y) <==> InLists(old(small), y) || y == x
        {
          ListsAfterPush(old(small), s / 8, x, y);
        }
      } else {
        InsertLarge(x, s);
        forall y: nat
          ensures InTrees(trees, y) <==> InTrees(old(trees), y) || y == x
        {
          TreesAfterInsert(old(trees), TreeIndex(s), BinLow(TreeIndex(s)), BinBits(TreeIndex(s)), s, x, y);
        }
      }
    }

    /** unlink_chunk */
    method UnlinkChunk(x: nat, s: nat)
      requires Binned() && InBins(small, trees, x) && size.At(x) == s
      modifies `links, `smallmap, `small, `treemap, `treebins, `trees
      ensures Binned()
      ensures forall y: nat :: InBins(small, trees, y) <==> old(InBins(small, trees, y)) && y != x
    {
      BinBySize(BinsNow(), size, x);
      if s / 8 < NSMALLBINS {
        ghost var k: nat :| k < |small[s / 8]| && small[s / 8][k] == x;
        UnlinkSmall(x, s, k);
        forall y: nat
          ensures InLists(small, y) <==> InLists(old(small), y) && y != x
        {
          ListsAfterPop(old(BinsNow()), size, s / 8, k, y);
        }
      } else {
        UnlinkLarge(x, TreeIndex(s));
        forall y: nat
          ensures InTrees(trees, y) <==> InTrees(old(trees), y) && y != x
        {
          TreesAfterRemove(old(BinsNow()), size, TreeIndex(s), x, y);
        }
      }
    }

    /** set_size_and_pinuse_of_free_chunk */
    method SetFree(p: nat, s: nat)
      modifies `size, `foot, `cinuse, `pinuse
      ensures size == old(size).Set(p, s) && foot == old(foot).Set(p + s, s)
      ensures cinuse == old(cinuse) - {p} && pinuse == old(pinuse) + {p}
    {
      size, cinuse, pinuse := size.Set(p, s), cinuse - {p}, pinuse + {p};
      foot := foot.Set(p + s, s);
    }

    /** set_free_with_pinuse */
    method SetFreeBefore(p: nat, s: nat, n: nat)
      modifies `size, `foot, `cinuse, `pinuse
      ensures size == old(size).Set(p, s) && foot == old(foot).Set(p + s, s)
      ensures cinuse == old(cinuse) - {p} && pinuse == old(pinuse) - {n} + {p}
    {
      pinuse := pinuse - {n};
      SetFree(p, s);
    }

    /** The merged chunk stays the designated victim, or goes into its bin. */
    method Rebin(ghost h: Tags, ghost q: nat, p: nat, ghost n: nat, psize: nat, ghost out: set<nat>)
      requires Freeing(BinsNow(), h, Seg(), q, p, n, out) && MergedTags(h, Now(), p, n)
      requires n in h.cinuse && foot.At(n) == psize == n - p
      modifies `dvsize, `chunks, `links, `smallmap, `small, `treemap, `treebins, `trees
      ensures Valid() && Released(h, old(Seg()), Now(), Seg(), q)
      ensures dvsize == if p == dv then psize else old(dvsize)
    {
      ghost var g' := Seg().(chunks := Outside(chunks, p, n), dvsize := if p == dv then psize else dvsize);
      MergedHeap(BinsNow(), h, Seg(), Now(), g', q, p, n, out);
      chunks := g'.chunks;
      if p == dv {
        dvsize := psize;
        assert Seg() == g';
        return;
      }
      assert Seg() == g';
      PutAway(p, psize);
    }

    /** The last free chunk outside the bins goes into its bin. */
    method PutAway(p: nat, s: nat)
      requires InOrder(BinsNow(), Now(), Seg(), {p})
      requires Tiles.Free(Now(), chunks, fence, p) && p != dv && p != top
      requires size.At(p) == s && s < WORD && s % 8 == 0
      modifies `links, `smallmap, `small, `treemap, `treebins, `trees
      ensures Valid()
    {
      InsertChunk(p, s);
    }

    /** The merged chunk is followed by top and becomes part of it. */
    method JoinTop(ghost q: nat, p: nat, psize: nat, ghost out: set<nat>)
      requires Freeing(BinsNow(), Now(), Seg(), q, p, top, out) && psize == top - p && top != 0
      requires top !in cinuse
      modifies this
      ensures Valid() && Released(old(Now()), old(Seg()), Now(), Seg(), q)
      ensures Placed(old(Now()), old(Seg()), Seg(), p, old(top))
    {
      chunks := Outside(chunks, p, fence);
      WidenTop(p, psize);
      MergedTop(BinsNow(), old(Now()), old(Seg()), Now(), Seg(), q, p, out);
    }

    /** Top starts at p; a designated victim there is gone. */
    method WidenTop(p: nat, psize: nat)
      modifies `size, `cinuse, `pinuse, `top, `topsize, `dv, `dvsize
      ensures size == old(size).Set(p, topsize) && cinuse == old(cinuse) - {p} && pinuse == old(pinuse) + {p}
      ensures top == p && topsize == old(topsize) + psize
      ensures dv == (if p == old(dv) then 0 else old(dv)) && dvsize == (if p == old(dv) then 0 else old(dvsize))
    {
      topsize := topsize + psize;
      top := p;
      size, cinuse, pinuse := size.Set(p, topsize), cinuse - {p}, pinuse + {p};
      if p == dv {
        dv := 0;
        dvsize := 0;
      }
    }

    /** The merged chunk is followed by the designated victim and becomes part of it. */
    method JoinDv(ghost q: nat, p: nat, psize: nat, ghost out: set<nat>)
      requires Freeing(BinsNow(), Now(), Seg(), q, p, dv, out) && psize == dv - p && dv != 0
      requires dv !in cinuse && dv != top
      modifies this
      ensures Valid() && Released(old(Now()), old(Seg()), Now(), Seg(), q)
      ensures Placed(old(Now()), old(Seg()), Seg(), p, old(dv))
    {
      chunks := Outside(chunks, p, dv + dvsize);
      dvsize := dvsize + psize;
      dv := p;
      SetFree(p, dvsize);
      MergedDv(BinsNow(), old(Now()), old(Seg()), Now(), Seg(), q, p, out);
    }

    /** The merged chunk is followed by a binned chunk, which leaves its bin and joins. */
    method JoinNext(ghost q: nat, p: nat, psize: nat, next: nat, ghost out: set<nat>)
      requires Freeing(BinsNow(), Now(), Seg(), q, p, next, out) && psize == next - p
      requires next != fence && next !in cinuse && next != top && next != dv
      modifies this
      ensures Valid() && Released(old(Now()), old(Seg()), Now(), Seg(), q)
      ensures Placed(old(Now()), old(Seg()), Seg(), p, next)
    {
      var nsize := size.At(next);
      Absorb(q, p, psize, next, nsize, out);
      Rebin(old(Now()), q, p, next + nsize, psize + nsize, out + {next});
    }

    /** A binned chunk leaves its bin and becomes part of the free chunk before it. */
    method Absorb(ghost q: nat, p: nat, psize: nat, next: nat, nsize: nat, ghost out: set<nat>)
      requires Freeing(BinsNow(), Now(), Seg(), q, p, next, out) && psize == next - p && nsize == size.At(next)
      requires next != fence && next !in cinuse && next != top && next != dv
      modifies `size, `foot, `cinuse, `pinuse, `links, `smallmap, `small, `treemap, `treebins, `trees
      ensures Freeing(BinsNow(), old(Now()), old(Seg()), q, p, next + nsize, out + {next}) && MergedTags(old(Now()), Now(), p, next + nsize)
      ensures next + nsize in old(cinuse) && foot.At(next + nsize) == psize + nsize == next + nsize - p
    {
      NextLeaves(q, p, next, nsize, out);
      SetFree(p, psize + nsize);
      AbsorbedTags(old(Now()), Now(), p, psize + nsize);
    }

    /** The chunk behind the region leaves its bin. */
    method NextLeaves(ghost q: nat, ghost p: nat, next: nat, nsize: nat, ghost out: set<nat>)
      requires Freeing(BinsNow(), Now(), Seg(), q, p, next, out) && nsize == size.At(next)
      requires next != fence && next !in cinuse && next != top && next != dv
      modifies `links, `smallmap, `small, `treemap, `treebins, `trees
      ensures Freeing(BinsNow(), Now(), Seg(), q, p, next + nsize, out + {next})
      ensures next + nsize in cinuse && next + nsize !in pinuse
    {
      UnlinkChunk(next, nsize);
      FreeingGrows(old(BinsNow()), BinsNow(), Now(), Seg(), q, p, next, out);
    }

    /** The free chunk before chunk q, if there is one, joins; it leaves its bin unless it is the
        designated victim. */
    method ConsolidateBackward(q: nat, next: nat) returns (p: nat, psize: nat, ghost out: set<nat>)
      requires Valid() && InUse(q) && next == q + size.At(q)
      modifies `links, `smallmap, `small, `treemap, `treebins, `trees
      ensures Freeing(BinsNow(), Now(), Seg(), q, p, next, out) && psize == next - p && (next == fence ==> next in cinuse)
      ensures p == if q in pinuse then q else q - foot.At(q)
    {
      ghost var p' := RegionStarts(Now(), Seg(), q);
      p, psize, out := q, size.At(q), {};
      if q !in pinuse {
        var prevsize := foot.At(q);
        p := q - prevsize;
        psize := psize + prevsize;
        out := LeaveBin(p, prevsize);
      }
      FreeingStarts(old(BinsNow()), BinsNow(), Now(), Seg(), q, p, out);
    }

    /** Free chunk p leaves its bin unless it is the designated victim. */
    method LeaveBin(p: nat, s: nat) returns (ghost out: set<nat>)
      requires Binned() && (p != dv ==> InBins(small, trees, p)) && size.At(p) == s
      modifies `links, `smallmap, `small, `treemap, `treebins, `trees
      ensures Binned() && out == if p == dv then {} else {p}
      ensures forall y: nat :: InBins(small, trees, y) <==> old(InBins(small, trees, y)) && y !in out
    {
      out := {};
      if p != dv {
        UnlinkChunk(p, s);
        out := {p};
      }
    }

    /** mspace_free */
    method Free(mem: nat)
      requires Valid() && (mem != 0 ==> 8 <= mem && InUse(mem - 8))
      modifies this
      ensures Valid()
      ensures mem == 0 ==> unchanged(this)
      ensures mem != 0 ==> Released(old(Now()), old(Seg()), Now(), Seg(), mem - 8)
      ensures mem != 0 ==> Folded(old(Now()), old(Seg()), Seg(), mem - 8)
    {
      if mem != 0 {
        ghost var q := mem - 8;
        var next := mem - 8 + size.At(mem - 8);
        var p, psize, out := ConsolidateBackward(mem - 8, next);
        if p == dv && next in cinuse && next in pinuse {
          Settle(q, p, psize, next, out);
        } else if next !in cinuse {
          Consolidate(q, p, psize, next, out);
        } else {
          Settle(q, p, psize, next, out);
        }
      }
    }

    /** The chunk behind is in use: what is free before it stays the designated victim, or is binned. */
    method Settle(ghost q: nat, p: nat, psize: nat, next: nat, ghost out: set<nat>)
      requires Freeing(BinsNow(), Now(), Seg(), q, p, next, out) && psize == next - p && next in cinuse
      modifies this
      ensures Valid() && Released(old(Now()), old(Seg()), Now(), Seg(), q)
      ensures Placed(old(Now()), old(Seg()), Seg(), p, next)
    {
      SetFreeBefore(p, psize, next);
      Rebin(old(Now()), q, p, next, psize, out);
    }

    /** The free chunk behind joins. */
    method Consolidate(ghost q: nat, p: nat, psize: nat, next: nat, ghost out: set<nat>)
      requires Freeing(BinsNow(), Now(), Seg(), q, p, next, out) && psize == next - p && next !in cinuse && next != fence
      modifies this
      ensures Valid() && Released(old(Now()), old(Seg()), Now(), Seg(), q)
      ensures Placed(old(Now()), old(Seg()), Seg(), p, next)
    {
      if next == top {
        JoinTop(q, p, psize, out);
      } else if next == dv {
        JoinDv(q, p, psize, out);
      } else {
        JoinNext(q, p, psize, next, out);
      }
    }

    /** Free chunk p is out of the bins. */
    ghost predicate Detached(p: nat)
      reads this
    {
      && InOrder(BinsNow(), Now(), Seg(), {p})
      && Tiles.Free(Now(), chunks, fence, p) && p != top && p != dv
    }

    /** set_inuse_and_pinuse, on a chunk that is not worth splitting */
    method TakeChunk(p: nat, nb: nat, mark: nat)
      requires Detached(p) && nb <= size.At(p) < nb + MIN_CHUNK_SIZE
      modifies `cinuse, `pinuse, `foot
      ensures Valid() && Granted(old(Now()), old(Seg()), Now(), Seg(), p, nb, mark)
    {
      var s := size.At(p);
      cinuse, pinuse := cinuse + {p}, pinuse + {p} + {p + s};
      foot := foot.Set(p + s, mark);
      TakenHeap(BinsNow(), old(Now()), Seg(), Now(), p);
    }

    /** set_size_and_pinuse_of_inuse_chunk for the front, set_size_and_pinuse_of_free_chunk for the rest */
    method SplitHead(p: nat, nb: nat, rsize: nat, mark: nat)
      requires 0 < nb && 0 < rsize
      modifies `size, `cinuse, `pinuse, `foot
      ensures SplitTags(old(Now()), Now(), p, nb, nb + rsize) && foot.At(p + nb) == mark
    {
      size, cinuse, pinuse := size.Set(p, nb), cinuse + {p}, pinuse + {p};
      foot := foot.Set(p + nb, mark);
      SetFree(p + nb, rsize);
    }

    /** Free chunk p gives up its front; the rest is a free chunk that is not yet in any bin. */
    method SplitChunk(p: nat, nb: nat, rsize: nat, mark: nat) returns (r: nat)
      requires Detached(p) && size.At(p) == nb + rsize && MIN_CHUNK_SIZE <= rsize
      requires MIN_CHUNK_SIZE <= nb && nb % 8 == 0
      modifies `size, `cinuse, `pinuse, `foot, `chunks
      ensures r == p + nb && Detached(r) && size.At(r) == rsize && Granted(old(Now()), old(Seg()), Now(), Seg(), p, nb, mark)
      ensures !InBins(small, trees, r) && FIRST_CHUNK <= r && rsize < WORD && rsize % 8 == 0
    {
      r := p + nb;
      chunks := chunks + {r};
      SplitHead(p, nb, rsize, mark);
      SplitHeap(BinsNow(), old(Now()), old(Seg()), Now(), Seg(), p, nb);
    }

    /** replace_dv: the old designated victim goes into its bin. */
    method ReplaceDv(p: nat, s: nat)
      requires Detached(p) && size.At(p) == s && 0 < s && dvsize < MIN_LARGE_SIZE
      modifies `dv, `dvsize, `links, `smallmap, `small, `treemap, `treebins, `trees
      ensures Valid() && dv == p
      ensures dvsize == s
    {
      var dvs := dvsize;
      if dvs != 0 {
        SizeOfChunk(Now(), Seg(), dv);
        InsertChunk(dv, dvs);
      }
      dvsize := s;
      dv := p;
    }

    /** unlink_large_chunk, on a chunk of tree bin i */
    method DetachLarge(x: nat, ghost i: nat)
      requires Valid() && i < NTREEBINS && 0 < Count(trees[i], x)
      modifies `links, `treemap, `treebins, `trees
      ensures Detached(x)
    {
      LargeOut(BinsNow(), Now(), Seg(), i, x);
      UnlinkLarge(x, i);
    }

    /** unlink_first_small_chunk */
    method DetachFirstSmall(i: nat) returns (p: nat)
      requires Valid() && i < NSMALLBINS && Bit(smallmap, i)
      modifies `links, `smallmap, `small
      ensures Detached(p) && size.At(p) == 8 * i
    {
      assert SmallBinOk(links, size, smallmap, small[i], i);
      FirstSmallOut(BinsNow(), Now(), Seg(), i);
      p := UnlinkFirstSmall(i);
    }

    /** Chunk p gives up its front, and the rest becomes the designated victim. */
    method SplitToDv(p: nat, nb: nat, rsize: nat, mark: nat)
      requires Detached(p) && size.At(p) == nb + rsize && MIN_CHUNK_SIZE <= rsize && dvsize < MIN_LARGE_SIZE
      requires MIN_CHUNK_SIZE <= nb && nb % 8 == 0
      modifies this
      ensures Valid() && Granted(old(Now()), old(Seg()), Now(), Seg(), p, nb, mark)
      ensures dv == p + nb && dvsize == rsize && top == old(top) && topsize == old(topsize)
    {
      var r := SplitChunk(p, nb, rsize, mark);
      ReplaceDv(r, rsize);
    }

    /** Chunk p gives up its front, and the rest goes into a bin. */
    method SplitToBin(p: nat, nb: nat, rsize: nat, mark: nat)
      requires Detached(p) && size.At(p) == nb + rsize && MIN_CHUNK_SIZE <= rsize
      requires MIN_CHUNK_SIZE <= nb && nb % 8 == 0
      modifies this
      ensures Valid() && Granted(old(Now()), old(Seg()), Now(), Seg(), p, nb, mark)
      ensures dv == old(dv) && dvsize == old(dvsize) && top == old(top) && topsize == old(topsize)
    {
      var r := SplitChunk(p, nb, rsize, mark);
      PutAway(r, rsize);
    }

    /** The arm for a remainderless fit: the bin of the request or the next one. */
    method MallocExact(nb: nat, idx: nat, smallbits: nat, mark: nat) returns (p: nat)
      requires Valid() && nb % 8 == 0 && idx == nb / 8 < NSMALLBINS
      requires smallbits == ShiftRight(smallmap, idx) && And(smallbits, 3) != 0 && NearFit(Now(), Seg(), nb)
      modifies `links, `smallmap, `small, `cinuse, `pinuse, `foot
      ensures Valid() && p != 0 && p != dv && Answered(true, old(Now()), old(Seg()), Now(), Seg(), p, nb, mark)
    {
      MarkedFrom(smallmap, idx);
      var i := idx + 1 - smallbits % 2;
      BitBelow(smallmap, i);
      p := TakeNear(nb, i, mark);
      NearFitAnswers(old(Now()), old(Seg()), Now(), Seg(), p, nb, mark);
    }

    /** The first chunk of small bin i, the next or second next for the request, is taken whole. */
    method TakeNear(nb: nat, i: nat, mark: nat) returns (p: nat)
      requires Valid() && nb % 8 == 0 && nb / 8 <= i <= nb / 8 + 1 && i < NSMALLBINS && Bit(smallmap, i)
      requires i == nb / 8 || !Bit(smallmap, nb / 8)
      modifies `links, `smallmap, `small, `cinuse, `pinuse, `foot
      ensures Valid() && p != 0 && p != dv && Granted(old(Now()), old(Seg()), Now(), Seg(), p, nb, mark)
      ensures SmallestFit(old(Now()), old(Seg()), dv, p, nb)
    {
      p := DetachFirstSmall(i);
      SmallestOfSmall(old(BinsNow()), old(Now()), old(Seg()), p, nb, i);
      TakeChunk(p, nb, mark);
    }

    /** The arm for a larger small bin: the first chunk of the next non-empty one is split, and the
        remainder becomes the designated victim. */
    method MallocNextSmall(nb: nat, idx: nat, smallbits: nat, mark: nat) returns (p: nat)
      requires Valid() && nb % 8 == 0 && MIN_CHUNK_SIZE <= nb && idx == nb / 8 < NSMALLBINS && dvsize < nb
      requires smallbits == ShiftRight(smallmap, idx) && And(smallbits, 3) == 0 && smallbits != 0
      modifies this
      ensures Valid() && Granted(old(Now()), old(Seg()), Now(), Seg(), p, nb, mark)
      ensures SmallestFit(old(Now()), old(Seg()), old(dv), p, nb)
      ensures Served(true, old(Seg()), Seg(), p, nb, old(size).At(p)) && p != old(dv)
    {
      MarkedFrom(smallmap, idx);
      ghost var left := NextFrom(smallmap, idx);
      var leftbits := And(ShiftLeft(smallbits, idx), LeftBits(Idx2Bit(idx)));
      var i := BitScan(LeastBit(leftbits));
      p := SplitFirst(nb, i, mark);
    }

    /** The first chunk of small bin i is split, and the remainder becomes the designated victim. */
    method SplitFirst(nb: nat, i: nat, mark: nat) returns (p: nat)
      requires Valid() && nb % 8 == 0 && MIN_CHUNK_SIZE <= nb && nb / 8 + 1 < i < NSMALLBINS && dvsize < nb
      requires Bit(smallmap, i) && forall j :: nb / 8 <= j < i ==> !Bit(smallmap, j)
      modifies this
      ensures Valid() && Granted(old(Now()), old(Seg()), Now(), Seg(), p, nb, mark)
      ensures SmallestFit(old(Now()), old(Seg()), old(dv), p, nb)
      ensures Served(true, old(Seg()), Seg(), p, nb, old(size).At(p)) && p != old(dv)
    {
      p := DetachFirstSmall(i);
      SmallestOfSmall(old(BinsNow()), old(Now()), old(Seg()), p, nb, i);
      var rsize := 8 * i - nb;
      SplitToDv(p, nb, rsize, mark);
    }

    /** The search of a small request: the smallest chunk of the first non-empty tree bin. */
    method FindSmallest(nb: nat) returns (v: nat, rsize: nat, ghost i: nat)
      requires Binned() && 0 < nb < MIN_LARGE_SIZE && treemap != 0
      ensures i < NTREEBINS && v != 0 && GoodFit(size, trees[i], nb, v, rsize)
      ensures Best(trees, nb, v, rsize)
    {
      FirstMarked(treemap);
      var k := BitScan(LeastBit(treemap));
      i := k;
      assert TreeBinOk(links, size, treebins[i], treemap, trees[i], i);
      SmallRequestFits(size, trees[i], nb, i, treebins[i]);
      v, rsize := FromRoot(nb, k);
      LeastTreeIsBest(BinsNow(), size, nb, i, v, rsize);
    }

    /** The root is the first candidate, then the leftmost walk goes on below it. */
    method FromRoot(nb: nat, i: nat) returns (v: nat, rsize: nat)
      requires 0 < nb < MIN_LARGE_SIZE && i < NTREEBINS == |treebins| && |trees| == NTREEBINS && trees[i].Node?
      requires TreeBinOk(links, size, treebins[i], treemap, trees[i], i)
      requires AtNode(trees[i], treebins[i], trees[i]) && GoodFit(size, trees[i], nb, 0, WORD - nb)
      requires Rest(trees[i], nb, 0, WORD - nb, trees[i])
      ensures v != 0 && GoodFit(size, trees[i], nb, v, rsize) && Rest(trees[i], nb, v, rsize, Nil)
    {
      var t := treebins[i];
      NodeSeen(links, size, treebins[i], trees[i], i, t, trees[i]);
      v := t;
      rsize := size.At(t) - nb;
      LeftmostStep(trees[i], nb, 0, WORD - nb, trees[i], v, rsize);
      t := if links.left.At(t) != 0 then links.left.At(t) else links.right.At(t);
      v, rsize := WalkLeftmost(nb, t, v, rsize, i, LeftmostChild(trees[i]));
    }

    /** tmalloc_large */
    method TmallocLarge(nb: nat, mark: nat) returns (p: nat)
      requires Valid() && MIN_LARGE_SIZE <= nb < WORD && nb % 8 == 0
      modifies this
      ensures p != 0 ==> Valid() && p != old(dv) && Answered(false, old(Now()), old(Seg()), Now(), Seg(), p, nb, mark)
      ensures p == 0 ==> unchanged(this)
      ensures p == 0 && nb <= dvsize ==> SmallestFit(Now(), Seg(), 0, dv, nb)
      ensures p == 0 && dvsize < nb ==> NoneFits(Now(), Seg(), nb)
      ensures p != 0 && nb <= old(dvsize) ==> old(size).At(p) < old(dvsize)
    {
      var v, rsize;
      ghost var i;
      v, rsize, i := CompareFit(nb);
      if v != 0 && rsize < (dvsize - nb) % WORD {
        TakeBest(v, nb, rsize, mark, i);
        return v;
      }
      return 0;
    }

    /** The best fit of the tree bins, and what the unsigned comparison with the designated victim says of it. */
    method CompareFit(nb: nat) returns (v: nat, rsize: nat, ghost i: nat)
      requires Valid() && MIN_LARGE_SIZE <= nb < WORD && nb % 8 == 0
      ensures v != 0 ==> i < NTREEBINS && 0 < Count(trees[i], v) && size.At(v) == nb + rsize
      ensures Compared(Now(), Seg(), v, nb, rsize)
    {
      v, rsize, i := FindFit(nb);
      SmallestOfTrees(BinsNow(), Now(), Seg(), nb, v, rsize);
      DvOrBest(Now(), Seg(), v, nb, rsize);
    }

    /** The best fit is preferred to the designated victim. */
    method TakeBest(v: nat, nb: nat, rsize: nat, mark: nat, ghost i: nat)
      requires Valid() && i < NTREEBINS && 0 < Count(trees[i], v) && size.At(v) == nb + rsize && v != 0
      requires MIN_CHUNK_SIZE <= nb && nb % 8 == 0 && SmallestFit(Now(), Seg(), 0, v, nb) && (nb <= dvsize ==> nb + rsize < dvsize)
      modifies this
      ensures Valid() && v != old(dv) && Answered(false, old(Now()), old(Seg()), Now(), Seg(), v, nb, mark)
      ensures nb <= old(dvsize) ==> old(size).At(v) < old(dvsize)
    {
      TakeLarge(v, nb, rsize, mark, i);
      BestFitAnswers(old(Now()), old(Seg()), Now(), Seg(), v, nb, rsize, mark);
    }

    /** Chunk v of tree bin i serves the request; what is left of it goes into a bin. */
    method TakeLarge(v: nat, nb: nat, rsize: nat, mark: nat, ghost i: nat)
      requires Valid() && i < NTREEBINS && 0 < Count(trees[i], v) && size.At(v) == nb + rsize
      requires MIN_CHUNK_SIZE <= nb && nb % 8 == 0
      modifies this
      ensures Valid() && Granted(old(Now()), old(Seg()), Now(), Seg(), v, nb, mark)
      ensures v != old(dv) && v != old(top) && dv == old(dv) && dvsize == old(dvsize) && top == old(top) && topsize == old(topsize)
    {
      DetachLarge(v, i);
      if rsize < MIN_CHUNK_SIZE {
        TakeChunk(v, nb, mark);
      } else {
        SplitToBin(v, nb, rsize, mark);
      }
    }

    /** tmalloc_small */
    method TmallocSmall(nb: nat, mark: nat) returns (p: nat)
      requires Valid() && MIN_CHUNK_SIZE <= nb < MIN_LARGE_SIZE && nb % 8 == 0 && treemap != 0 && dvsize < nb
      requires forall j: nat :: nb / 8 <= j < NSMALLBINS ==> !Bit(smallmap, j)
      modifies this
      ensures p != 0 && Valid() && Granted(old(Now()), old(Seg()), Now(), Seg(), p, nb, mark)
      ensures SmallestFit(old(Now()), old(Seg()), old(dv), p, nb)
      ensures Served(true, old(Seg()), Seg(), p, nb, old(size).At(p)) && p != old(dv)
    {
      var v, rsize;
      ghost var i;
      v, rsize, i := FindSmallest(nb);
      SmallestOfTrees(BinsNow(), Now(), Seg(), nb, v, rsize);
      DetachLarge(v, i);
      if rsize < MIN_CHUNK_SIZE {
        TakeChunk(v, nb, mark);
      } else {
        SplitToDv(v, nb, rsize, mark);
      }
      return v;
    }

    /** The arm that serves the request from the designated victim, splitting or exhausting it. */
    method MallocDv(nb: nat, mark: nat) returns (p: nat)
      requires Valid() && MIN_CHUNK_SIZE <= nb <= dvsize && nb % 8 == 0
      modifies this
      ensures p == old(dv) != 0 && Valid() && Granted(old(Now()), old(Seg()), Now(), Seg(), p, nb, mark)
      ensures Served(true, old(Seg()), Seg(), p, nb, old(size).At(p))
    {
      var rsize := dvsize - nb;
      p := dv;
      if MIN_CHUNK_SIZE <= rsize {
        SplitOffDv(nb, rsize, mark);
      } else {
        dvsize := 0;
        dv := 0;
        TakeChunk(p, nb, mark);
      }
    }

    /** The designated victim is a new chunk at p. */
    method MoveDv(p: nat, s: nat)
      modifies `dv, `dvsize, `chunks
      ensures dv == p && dvsize == s && chunks == old(chunks) + {p}
    {
      dv := p;
      dvsize := s;
      chunks := chunks + {p};
    }

    /** The designated victim gives up its front. */
    method SplitOffDv(nb: nat, rsize: nat, mark: nat)
      requires Valid() && dv != 0 && MIN_CHUNK_SIZE <= nb && nb % 8 == 0 && MIN_CHUNK_SIZE <= rsize && nb + rsize == dvsize
      modifies this
      ensures Valid() && Granted(old(Now()), old(Seg()), Now(), Seg(), old(dv), nb, mark)
      ensures dv == old(dv) + nb && dvsize == rsize && top == old(top) && topsize == old(topsize)
    {
      var p := dv;
      MoveDv(p + nb, rsize);
      SplitHead(p, nb, rsize, mark);
      SplitDv(BinsNow(), old(Now()), old(Seg()), Now(), Seg(), nb);
    }

    /** mspace_malloc up to the arms that use top. The result is zero, and nothing has changed, exactly when the
        request is too large or no other free chunk has room for it. `mark` goes into the word behind the chunk. */
    method Malloc(bytes: nat, mark: nat) returns (mem: nat)
      requires Valid() && bytes < WORD
      modifies this
      ensures Valid()
      ensures mem == 0 <==> 0xFFFF_FFC0 <= bytes || NoRoom(old(Now()), old(Seg()), bytes)
      ensures mem != 0 || unchanged(this)
      ensures mem == 0 || (8 <= mem && ServedBytes(old(Now()), old(Seg()), Now(), mem - 8, bytes))
      ensures mem == 0 || Answered(bytes <= 240, old(Now()), old(Seg()), Now(), Seg(), mem - 8, Padded(bytes), mark)
    {
      if MAX_REQUEST <= bytes {
        return 0;
      }
      mem := MallocPadded(bytes, mark);
    }

    /** A request below the limit is padded to a chunk size. */
    method MallocPadded(bytes: nat, mark: nat) returns (mem: nat)
      requires Valid() && bytes < MAX_REQUEST
      modifies this
      ensures Valid()
      ensures mem == 0 <==> NoRoom(old(Now()), old(Seg()), bytes)
      ensures mem != 0 || unchanged(this)
      ensures mem == 0 || (8 <= mem && ServedBytes(old(Now()), old(Seg()), Now(), mem - 8, bytes))
      ensures mem == 0 || Answered(bytes <= 240, old(Now()), old(Seg()), Now(), Seg(), mem - 8, Padded(bytes), mark)
    {
      PaddedRange(bytes);
      ghost var b, h, g := BinsNow(), Now(), Seg();
      mem := MallocSized(bytes <= MAX_SMALL_REQUEST, Padded(bytes), mark);
      RepliedInBytes(b, h, g, BinsNow(), Now(), Seg(), mem, bytes, mark);
    }

    /** The search for a chunk of nb bytes, in the order for small or for large requests. */
    method MallocSized(small: bool, nb: nat, mark: nat) returns (mem: nat)
      requires Valid() && nb % 8 == 0 && (if small then MIN_CHUNK_SIZE <= nb < MIN_LARGE_SIZE else MIN_LARGE_SIZE <= nb < WORD)
      modifies this
      ensures Valid()
      ensures mem != 0 ==> 8 <= mem && Answered(small, old(Now()), old(Seg()), Now(), Seg(), mem - 8, nb, mark)
      ensures mem == 0 ==> unchanged(this) && NoneFits(Now(), Seg(), nb)
    {
      if small {
        mem := MallocSmall(small, nb, mark);
      } else {
        mem := MallocLarge(small, nb, mark);
      }
    }

    /** What has been freed can be had again: the next request for as many bytes is served, unless the chunk went to top. */
    method FreeThenMalloc(mem: nat, mark: nat) returns (again: nat)
      requires Valid() && 8 <= mem && InUse(mem - 8) && mem - 8 + size.At(mem - 8) != top && size.At(mem - 8) < 0xFFFF_FFC8
      modifies this
      ensures Valid() && 8 <= again && InUse(again - 8) && old(size).At(mem - 8) <= size.At(again - 8)
    {
      var s := size.At(mem - 8);
      SizeOfChunk(Now(), Seg(), mem - 8);
      Free(mem);
      ghost var c := FreedIsFree(old(Now()), old(Seg()), Now(), Seg(), mem - 8);
      PaddedBack(s);
      again := Malloc(s - 8, mark);
    }

    /** The two arms that serve a request from top. Neither gives back a heap in order: the first one hands out
        the remainder of top instead of its front, and forgets the rest; the second one makes a top of less
        than a chunk. */
    method TakeFromTop(nb: nat, mark: nat) returns (p: nat)
      requires Valid() && MIN_CHUNK_SIZE <= nb <= topsize && nb % 8 == 0
      modifies `size, `foot, `cinuse, `pinuse, `top, `topsize
      ensures p == old(top) != 0 && size.At(p) == if nb + MIN_CHUNK_SIZE <= old(topsize) then old(topsize) - nb else nb
      ensures nb <= size.At(p) <==> old(topsize) < nb + MIN_CHUNK_SIZE || 2 * nb <= old(topsize)
      ensures (exists chunks' :: Tiled(Now(), chunks', base, fence, top)) <==>
        nb + MIN_CHUNK_SIZE <= old(topsize) && Walks(Now(), p + size.At(p), fence)
    {
      if nb + MIN_CHUNK_SIZE <= topsize {
        p := TakeRemainder(nb, mark);
      } else {
        p := CutTop(nb, mark);
      }
    }

    method TakeRemainder(nb: nat, mark: nat) returns (p: nat)
      requires Valid() && 0 < nb && nb + MIN_CHUNK_SIZE <= topsize && nb % 8 == 0
      modifies `size, `foot, `cinuse, `pinuse, `top, `topsize
      ensures p == old(top) != 0 == top && topsize == 0 && size.At(p) == old(topsize) - nb
      ensures (exists chunks' :: Tiled(Now(), chunks', base, fence, 0)) <==> Walks(Now(), p + size.At(p), fence)
    {
      var rsize := topsize - nb;
      p := top;
      SizeOfChunk(Now(), Seg(), top);
      top := 0;
      topsize := 0;
      size, cinuse, pinuse := size.Set(p, rsize), cinuse + {p}, pinuse + {p, p + rsize};
      foot := foot.Set(p + rsize, mark);
      DifferenceOfMultiples(nb, old(topsize));
      TakenExact(old(Now()), Now(), chunks, base, fence, p, rsize);
    }

    method CutTop(nb: nat, mark: nat) returns (p: nat)
      requires Valid() && 0 < nb <= topsize < nb + MIN_CHUNK_SIZE
      modifies `size, `foot, `cinuse, `pinuse, `top, `topsize
      ensures p == old(top) != 0 && top == p + nb && topsize == old(topsize) - nb && size.At(p) == nb
      ensures !exists chunks' :: Tiled(Now(), chunks', base, fence, top)
    {
      var rsize := topsize - nb;
      topsize := rsize;
      p := top;
      SizeOfChunk(Now(), Seg(), top);
      var r := p + nb;
      top := r;
      size, cinuse, pinuse := size.Set(r, rsize), cinuse - {r}, pinuse + {r};
      size, cinuse, pinuse := size.Set(p, nb), cinuse + {p}, pinuse + {p};
      foot := foot.Set(r, mark);
      forall chunks'
        ensures !Tiled(Now(), chunks', base, fence, top)
      {
        CutNever(old(Now()), Now(), chunks, base, fence, p, nb, rsize, chunks', top);
      }
    }

    /** A large request: the tree bins, or else the designated victim. */
    method MallocLarge(ghost small: bool, nb: nat, mark: nat) returns (mem: nat)
      requires Valid() && MIN_LARGE_SIZE <= nb < WORD && nb % 8 == 0 && !small
      modifies this
      ensures Valid()
      ensures mem != 0 ==> 8 <= mem && Answered(small, old(Now()), old(Seg()), Now(), Seg(), mem - 8, nb, mark)
      ensures mem == 0 ==> unchanged(this) && NoneFits(Now(), Seg(), nb)
    {
      if treemap != 0 {
        var p := TmallocLarge(nb, mark);
        if p != 0 {
          return p + 8;
        }
      } else {
        NoTrees(BinsNow(), Now(), Seg(), nb);
      }
      if nb <= dvsize {
        var p := MallocDv(nb, mark);
        return p + 8;
      }
      return 0;
    }

    /** A small request: a near fit, the designated victim, or else the next larger chunk. */
    method MallocSmall(ghost small: bool, nb: nat, mark: nat) returns (mem: nat)
      requires Valid() && MIN_CHUNK_SIZE <= nb < MIN_LARGE_SIZE && nb % 8 == 0 && small
      modifies this
      ensures Valid()
      ensures mem != 0 ==> 8 <= mem && Answered(small, old(Now()), old(Seg()), Now(), Seg(), mem - 8, nb, mark)
      ensures mem == 0 ==> unchanged(this) && NoneFits(Now(), Seg(), nb)
    {
      var idx := nb / 8;
      var smallbits := ShiftRight(smallmap, idx);
      var p;
      MarkedFrom(smallmap, idx);
      NearFitIsMarked(BinsNow(), Now(), Seg(), nb);
      if And(smallbits, 3) != 0 {
        p := MallocExact(nb, idx, smallbits, mark);
      } else if dvsize < nb {
        p := MallocBins(nb, idx, smallbits, mark);
      } else {
        p := MallocDv(nb, mark);
      }
      mem := if p == 0 then 0 else p + 8;
    }

    /** The arms for a small request that neither the nearest bins nor the designated victim can serve: the
        next small bin, or else the smallest chunk of the tree bins. */
    method MallocBins(nb: nat, idx: nat, smallbits: nat, mark: nat) returns (p: nat)
      requires Valid() && MIN_CHUNK_SIZE <= nb < MIN_LARGE_SIZE && nb % 8 == 0 && idx == nb / 8 && dvsize < nb
      requires smallbits == ShiftRight(smallmap, idx) && And(smallbits, 3) == 0
      modifies this
      ensures p != 0 ==> Valid() && p != old(dv) && Answered(true, old(Now()), old(Seg()), Now(), Seg(), p, nb, mark)
      ensures p == 0 ==> unchanged(this) && NoneFits(Now(), Seg(), nb)
    {
      MarkedFrom(smallmap, idx);
      if smallbits != 0 {
        p := MallocNextSmall(nb, idx, smallbits, mark);
      } else if treemap != 0 {
        p := TmallocSmall(nb, mark);
      } else {
        NoBinFits(BinsNow(), Now(), Seg(), nb);
        p := 0;
      }
    }
  }
  /** There is a heap with chunks in use: two of them fill a segment without top. */
  method TwoChunks() returns (a: Heap)
    ensures fresh(a) && a.Valid() && a.InUse(4096) && a.InUse(4128)
    ensures a.size.At(4096) == 32 && a.size.At(4128) == 16 && 4144 in a.cinuse && a.top == 0 && a.fence == 4144
  {
    var none: Mem := Mem(map[]);
    var h := Tags(Mem(map[4096 := 32, 4128 := 16]), none, {4096, 4128, 4144}, {4096, 4128, 4144});
    var g := Segment({4096, 4128, 4144}, 4096, 4144, 0, 0, 0, 0);
    var b := BinState(Words(none, none, none, none, none, none), 0, 0, seq(NTREEBINS, i => 0), seq(NSMALLBINS, i => []),
                      seq(NTREEBINS, i => Nil));
    EmptyBins(b, h.size);
    assert Tile(h, g.chunks, g.fence, 0, 4096) && Tile(h, g.chunks, g.fence, 0, 4128);
    a := new Heap.Given(h, g, b);
  }

  /** The operations run on it: both chunks are freed, and the bytes of the first one are handed out again. */
  method FreeAndServe() returns (a: Heap, mem: nat)
    ensures fresh(a) && a.Valid() && mem != 0
  {
    a := TwoChunks();
    a.Free(4136);
    mem := a.FreeThenMalloc(4104, 0);
  }
}

/** The search for the best fitting chunk: one walk down the tree of the request's own size, then one
    leftmost walk. */
module BestFit {
  import opened BinIndex
  import opened BitWords
  import opened SizeTrie
  import opened Links
  import opened Bins
  import opened TreeWrites
  import opened TreeUnlink

  /** The best fit so far, v, is at least as good as q, or something at least as good and large
      enough is still ahead, in n or in r. */
  ghost predicate Covered(q: nat, nb: nat, v: nat, rsize: nat, n: Tree, r: Tree) {
    (v != 0 && nb + rsize <= q) || exists p: nat :: nb <= p <= q && (Has(n, p) || Has(r, p))
  }

  /** No chunk of the tree that fits is lost to the search. */
  ghost predicate Searching(tree: Tree, nb: nat, v: nat, rsize: nat, n: Tree, r: Tree) {
    forall q: nat :: Has(tree, q) && nb <= q ==> Covered(q, nb, v, rsize, n, r)
  }

  /** The unsigned difference is below the best remainder exactly when the size fits and fits better. */
  lemma WrappedDifference(s: nat, nb: nat, rsize: nat)
    requires s < WORD && 0 < nb < WORD && rsize <= WORD - nb
    ensures (s - nb) % WORD < rsize <==> nb <= s && s - nb < rsize
    ensures nb <= s ==> (s - nb) % WORD == s - nb
  {
    if s < nb {
      assert (s - nb) % WORD == s - nb + WORD;
    }
  }

  /** The best fit after node n has been looked at. */
  ghost predicate Considered(n: Tree, nb: nat, v: nat, rsize: nat, v': nat, rsize': nat)
    requires n.Node?
  {
    if nb <= n.size && n.size - nb < rsize then v' == n.head && rsize' == n.size - nb
    else v' == v && rsize' == rsize
  }

  lemma {:induction false} HasSomeSize(t: Tree)
    requires t.Node?
    ensures Has(t, t.size)
  {}

  /** Looking at a node, then going down on the side of the request; a right subtree not entered is
      remembered instead of the one before. */
  lemma StepDown(tree: Tree, nb: nat, v: nat, rsize: nat, n: Tree, r: Tree, low: nat, bits: nat, v': nat, rsize': nat)
    requires Searching(tree, nb, v, rsize, n, r) && n.Node? && Trie(n, low, bits) && low <= nb < low + Pow2(bits)
    requires forall p: nat :: Has(r, p) ==> low + Pow2(bits) <= p
    requires Considered(n, nb, v, rsize, v', rsize') && n.head != 0
    requires v == 0 ==> n.size - nb < rsize
    ensures bits == 0 ==> Searching(tree, nb, v', rsize', Nil, r)
    ensures 0 < bits ==>
      && Searching(tree, nb, v', rsize', Child(n, nb, low, bits), NewRight(n, r, nb, low, bits))
      && forall p: nat :: Has(NewRight(n, r, nb, low, bits), p) ==> Half(nb, low, bits) + Pow2(bits - 1) <= p
  {
    forall q: nat | Has(tree, q) && nb <= q
      ensures bits == 0 ==> Covered(q, nb, v', rsize', Nil, r)
      ensures 0 < bits ==>
        Covered(q, nb, v', rsize', Child(n, nb, low, bits), NewRight(n, r, nb, low, bits))
    {
      CoverDown(q, nb, v, rsize, n, r, low, bits, v', rsize');
    }
    if 0 < bits {
      forall p: nat | Has(NewRight(n, r, nb, low, bits), p)
        ensures Half(nb, low, bits) + Pow2(bits - 1) <= p
      {
        if nb < low + Pow2(bits - 1) && n.right.Node? {
          SizeInRange(n.right, low + Pow2(bits - 1), bits - 1, p);
        }
      }
    }
  }

  /** The right subtree to remember when going down on the side of the request. */
  function NewRight(n: Tree, r: Tree, nb: nat, low: nat, bits: nat): Tree
    requires n.Node? && 0 < bits
  {
    if nb < low + Pow2(bits - 1) && n.right.Node? then n.right else r
  }

  lemma CoverDown(q: nat, nb: nat, v: nat, rsize: nat, n: Tree, r: Tree, low: nat, bits: nat, v': nat, rsize': nat)
    requires Covered(q, nb, v, rsize, n, r) && n.Node? && Trie(n, low, bits) && low <= nb < low + Pow2(bits)
    requires forall p: nat :: Has(r, p) ==> low + Pow2(bits) <= p
    requires Considered(n, nb, v, rsize, v', rsize') && n.head != 0
    requires v == 0 ==> n.size - nb < rsize
    ensures bits == 0 ==> Covered(q, nb, v', rsize', Nil, r)
    ensures 0 < bits ==> Covered(q, nb, v', rsize', Child(n, nb, low, bits), NewRight(n, r, nb, low, bits))
  {
    if !(v != 0 && nb + rsize <= q) {
      var p: nat :| nb <= p <= q && (Has(n, p) || Has(r, p));
      if p != n.size && 0 < bits {
        StillAhead(q, nb, n, r, low, bits, p);
      }
    }
  }

  /** A fitting size below the node, or in the remembered subtree, stays ahead, or a smaller one does. */
  lemma StillAhead(q: nat, nb: nat, n: Tree, r: Tree, low: nat, bits: nat, p: nat)
    requires n.Node? && Trie(n, low, bits) && 0 < bits && low <= nb < low + Pow2(bits)
    requires nb <= p <= q && p != n.size && (Has(n, p) || Has(r, p))
    requires Has(r, p) ==> low + Pow2(bits) <= p
    ensures exists p': nat :: nb <= p' <= q && (Has(Child(n, nb, low, bits), p') || Has(NewRight(n, r, nb, low, bits), p'))
  {
    var c, r' := Child(n, nb, low, bits), NewRight(n, r, nb, low, bits);
    if Has(n.left, p) {
      SizeInRange(n.left, low, bits - 1, p);
    }
    var p' := if Has(c, p) || Has(r', p) then p else n.right.size;
    if p' != p {
      HasSomeSize(n.right);
      SizeInRange(n.right, low + Pow2(bits - 1), bits - 1, p');
      assert nb <= p' <= q && Has(r', p');
    }
    assert nb <= p' <= q && (Has(c, p') || Has(r', p'));
  }

  function LeftmostChild(n: Tree): Tree
    requires n.Node?
  {
    if n.left.Node? then n.left else n.right
  }

  /** Every size in the tree is large enough. */
  ghost predicate AllFit(t: Tree, nb: nat) {
    t.Node? ==> nb <= t.size && AllFit(t.left, nb) && AllFit(t.right, nb)
  }

  lemma {:induction false} AllFitAbove(t: Tree, low: nat, bits: nat, nb: nat)
    requires Trie(t, low, bits) && nb <= low
    ensures AllFit(t, nb)
    decreases t
  {
    if t.Node? && bits != 0 {
      AllFitAbove(t.left, low, bits - 1, nb);
      AllFitAbove(t.right, low + Pow2(bits - 1), bits - 1, nb);
    }
  }

  /** Looking at a node, then going to its leftmost child: nothing is lost when all sizes there fit,
      or when an exact fit is already known. */
  lemma StepLeftmost(tree: Tree, nb: nat, v: nat, rsize: nat, n: Tree, low: nat, bits: nat, v': nat, rsize': nat)
    requires Searching(tree, nb, v, rsize, n, Nil) && n.Node? && Trie(n, low, bits)
    requires (v != 0 && rsize == 0) || AllFit(n, nb)
    requires Considered(n, nb, v, rsize, v', rsize') && n.head != 0
    requires v == 0 ==> n.size - nb < rsize
    ensures Searching(tree, nb, v', rsize', LeftmostChild(n), Nil)
    ensures (v' != 0 && rsize' == 0) || AllFit(LeftmostChild(n), nb)
  {
    forall q: nat | Has(tree, q) && nb <= q
      ensures Covered(q, nb, v', rsize', LeftmostChild(n), Nil)
    {
      CoverLeftmost(q, nb, v, rsize, n, low, bits, v', rsize');
    }
  }

  lemma CoverLeftmost(q: nat, nb: nat, v: nat, rsize: nat, n: Tree, low: nat, bits: nat, v': nat, rsize': nat)
    requires Covered(q, nb, v, rsize, n, Nil) && nb <= q && n.Node? && Trie(n, low, bits)
    requires (v != 0 && rsize == 0) || AllFit(n, nb)
    requires Considered(n, nb, v, rsize, v', rsize') && n.head != 0
    requires v == 0 ==> n.size - nb < rsize
    ensures Covered(q, nb, v', rsize', LeftmostChild(n), Nil)
  {
    if !(v != 0 && nb + rsize <= q) {
      var p: nat :| nb <= p <= q && (Has(n, p) || Has(Nil, p));
      if p == n.size {
        assert v' != 0 && nb + rsize' <= q;
      } else if Has(n.left, p) {
        assert Has(LeftmostChild(n), p);
      } else if n.left.Nil? {
        assert Has(LeftmostChild(n), p);
      } else {
        HasSomeSize(n.left);
        LeftBelowRight(n, low, bits, n.left.size, p);
        assert nb <= n.left.size <= q && Has(LeftmostChild(n), n.left.size);
      }
    }
  }

  lemma LeftBelowRight(n: Tree, low: nat, bits: nat, p: nat, q: nat)
    requires n.Node? && Trie(n, low, bits) && Has(n.left, p) && Has(n.right, q)
    ensures p < q
  {
    if bits != 0 {
      SizeInRange(n.left, low, bits - 1, p);
      SizeInRange(n.right, low + Pow2(bits - 1), bits - 1, q);
    }
  }

  /** Pointer t stands for subtree n of the tree. */
  ghost predicate AtNode(tree: Tree, t: nat, n: Tree) {
    if n.Nil? then t == 0 else 0 < Count(tree, t) && Find(tree, t) == n && n.head == t
  }

  /** What is known of the best fit v so far. */
  ghost predicate GoodFit(size: Mem, tree: Tree, nb: nat, v: nat, rsize: nat) {
    && (v != 0 ==> 0 < Count(tree, v) && size.At(v) == nb + rsize)
    && rsize <= WORD - nb && (v == 0 ==> rsize == WORD - nb)
  }

  /** The words at a node the search has come to. */
  lemma NodeSeen(w: Words, size: Mem, root: nat, tree: Tree, i: nat, t: nat, n: Tree)
    requires Repr(w, size, root, TreeBinAt(i), tree, i) && Distinct(tree) && OfBin(tree, i)
    requires AtNode(tree, t, n) && n.Node?
    ensures size.At(t) == n.size && n.size < WORD && t != 0
    ensures AtNode(tree, w.left.At(t), n.left) && AtNode(tree, w.right.At(t), n.right)
    ensures w.left.At(t) == w.right.At(t) ==> w.left.At(t) == 0
    ensures n.left.Nil? <==> w.left.At(t) == 0
    ensures n.right.Nil? <==> w.right.At(t) == 0
  {
    ReprFind(w, size, root, TreeBinAt(i), tree, i, t);
    HeadIsNotNull(w, size, t, w.parent.At(t), n, i);
    WalkRightLinks(w, size, n, i);
    SizeTellsBin(w, size, root, TreeBinAt(i), tree, i, t);
    ChildHasParent(w, size, root, TreeBinAt(i), tree, i, t);
    if n.left.Node? {
      FindChild(tree, t, true, Nil);
    }
    if n.right.Node? {
      FindChild(tree, t, false, Nil);
    }
  }

  /** The first walk is at subtree n, which covers the sizes low .. low + 2^bits around the request;
      subtree r of larger sizes is remembered. */
  ghost predicate OwnWalk(tree: Tree, nb: nat, v: nat, rsize: nat, n: Tree, r: Tree, low: nat, bits: nat) {
    && n.Node? && Searching(tree, nb, v, rsize, n, r)
    && Trie(n, low, bits) && low <= nb < low + Pow2(bits)
    && (forall p: nat :: Has(r, p) ==> low + Pow2(bits) <= p)
    && AllFit(r, nb) && IsTrie(r)
  }

  ghost predicate IsTrie(t: Tree) {
    exists low: nat, bits: nat :: Trie(t, low, bits)
  }

  /** What is left to search: subtree r and the best fit so far. */
  ghost predicate Rest(tree: Tree, nb: nat, v: nat, rsize: nat, r: Tree) {
    && Searching(tree, nb, v, rsize, r, Nil) && IsTrie(r)
    && ((v != 0 && rsize == 0) || AllFit(r, nb))
  }

  /** One step of the first walk: to the child on the side of the request, or, when there is none, on
      to the remembered subtree. */
  lemma OwnWalkStep(tree: Tree, nb: nat, v: nat, rsize: nat, n: Tree, r: Tree, low: nat, bits: nat,
                    v': nat, rsize': nat)
    requires OwnWalk(tree, nb, v, rsize, n, r, low, bits)
    requires Considered(n, nb, v, rsize, v', rsize') && n.head != 0 && (v == 0 ==> n.size - nb < rsize)
    ensures bits == 0 ==> n.left.Nil? && n.right.Nil? && Rest(tree, nb, v', rsize', r)
    ensures 0 < bits ==>
      var n', r' := Child(n, nb, low, bits), NewRight(n, r, nb, low, bits);
      if n'.Node? then OwnWalk(tree, nb, v', rsize', n', r', Half(nb, low, bits), bits - 1)
      else Rest(tree, nb, v', rsize', r')
  {
    StepDown(tree, nb, v, rsize, n, r, low, bits, v', rsize');
    if bits == 0 {
      SearchingSwap(tree, nb, v', rsize', r);
    } else {
      SearchingSwap(tree, nb, v', rsize', NewRight(n, r, nb, low, bits));
      NewRightFits(n, r, nb, low, bits);
    }
  }

  lemma NewRightFits(n: Tree, r: Tree, nb: nat, low: nat, bits: nat)
    requires n.Node? && Trie(n, low, bits) && 0 < bits && AllFit(r, nb) && IsTrie(r)
    ensures AllFit(NewRight(n, r, nb, low, bits), nb) && IsTrie(NewRight(n, r, nb, low, bits))
  {
    assert Trie(n.right, low + Pow2(bits - 1), bits - 1);
    if nb < low + Pow2(bits - 1) {
      AllFitAbove(n.right, low + Pow2(bits - 1), bits - 1, nb);
    }
  }

  lemma SearchingSwap(tree: Tree, nb: nat, v: nat, rsize: nat, r: Tree)
    ensures Searching(tree, nb, v, rsize, Nil, r) ==> Searching(tree, nb, v, rsize, r, Nil)
  {
    if Searching(tree, nb, v, rsize, Nil, r) {
      forall q: nat | Has(tree, q) && nb <= q
        ensures Covered(q, nb, v, rsize, r, Nil)
      {
        assert Covered(q, nb, v, rsize, Nil, r);
        if !(v != 0 && nb + rsize <= q) {
          var p: nat :| nb <= p <= q && (Has(Nil, p) || Has(r, p));
          assert Has(r, p);
        }
      }
    }
  }

  /** The tree of the request's own bin as the search starts. */
  lemma OwnWalkStarts(size: Mem, tree: Tree, nb: nat, root: nat)
    requires MIN_LARGE_SIZE <= nb < WORD && TreeIndex(nb) < NTREEBINS && tree.Node? && tree.head == root
    requires Trie(tree, BinLow(TreeIndex(nb)), BinBits(TreeIndex(nb)))
    ensures OwnWalk(tree, nb, 0, WORD - nb, tree, Nil, BinLow(TreeIndex(nb)), BinBits(TreeIndex(nb)))
    ensures AtNode(tree, root, tree) && GoodFit(size, tree, nb, 0, WORD - nb)
  {
    BinRange(nb);
    assert Trie(Nil, 0, 0);
    forall q: nat | Has(tree, q) && nb <= q
      ensures Covered(q, nb, 0, WORD - nb, tree, Nil)
    {
      assert nb <= q <= q && Has(tree, q);
    }
  }

  /** A tree all of whose sizes fit, as the leftmost walk starts there with no fit known. */
  lemma FreshStart(size: Mem, tree: Tree, nb: nat, root: nat, low: nat, bits: nat)
    requires 0 < nb < WORD && tree.Node? && tree.head == root && Trie(tree, low, bits) && AllFit(tree, nb)
    ensures Rest(tree, nb, 0, WORD - nb, tree)
    ensures AtNode(tree, root, tree) && GoodFit(size, tree, nb, 0, WORD - nb)
  {
    forall q: nat | Has(tree, q) && nb <= q
      ensures Covered(q, nb, 0, WORD - nb, tree, Nil)
    {
      assert nb <= q <= q && Has(tree, q);
    }
  }

  /** One step of the leftmost walk. */
  lemma LeftmostStep(tree: Tree, nb: nat, v: nat, rsize: nat, n: Tree, v': nat, rsize': nat)
    requires Rest(tree, nb, v, rsize, n) && n.Node?
    requires Considered(n, nb, v, rsize, v', rsize') && n.head != 0 && (v == 0 ==> n.size - nb < rsize)
    ensures Rest(tree, nb, v', rsize', LeftmostChild(n))
  {
    var low: nat, bits: nat :| Trie(n, low, bits);
    StepLeftmost(tree, nb, v, rsize, n, low, bits, v', rsize');
    if bits == 0 {
      assert Trie(LeftmostChild(n), 0, 0);
    } else {
      assert Trie(n.left, low, bits - 1) && Trie(n.right, low + Pow2(bits - 1), bits - 1);
    }
  }

  /** Nothing left to search: v is the best fit. */
  lemma NothingLeft(tree: Tree, nb: nat, v: nat, rsize: nat, q: nat)
    requires Rest(tree, nb, v, rsize, Nil) && Has(tree, q)
    ensures nb <= q ==> v != 0 && nb + rsize <= q
  {
    if nb <= q {
      assert Covered(q, nb, v, rsize, Nil, Nil);
    }
  }

  /** An exact fit ends the search. */
  lemma ExactFit(tree: Tree, nb: nat, v: nat, rsize: nat, n: Tree, low: nat, bits: nat, v': nat)
    requires n.Node? && Trie(n, low, bits) && Considered(n, nb, v, rsize, v', 0) && v' != 0
    ensures Rest(tree, nb, v', 0, n)
  {
    forall q: nat | Has(tree, q) && nb <= q
      ensures Covered(q, nb, v', 0, n, Nil)
    {}
  }

  /** One step of the first walk on the pointers: t goes to the child, rst to a right child not entered. */
  lemma OwnStep(tree: Tree, nb: nat, v: nat, rsize: nat, t: nat, n: Tree, rst: nat, r: Tree, low: nat, bits: nat,
                word: nat, l: nat, g: nat, v': nat, rsize': nat)
      returns (n': Tree, r': Tree, low': nat, bits': nat, word': nat)
    requires OwnWalk(tree, nb, v, rsize, n, r, low, bits) && Steers(word, nb, low, bits)
    requires AtNode(tree, rst, r) && AtNode(tree, l, n.left) && AtNode(tree, g, n.right) && (l == g ==> l == 0)
    requires (n.left.Nil? <==> l == 0) && (n.right.Nil? <==> g == 0)
    requires Considered(n, nb, v, rsize, v', rsize') && n.head != 0 && (v == 0 ==> n.size - nb < rsize)
    ensures word' == (2 * word) % WORD && n' < n
    ensures var t' := if word / 0x8000_0000 == 0 then l else g;
      && AtNode(tree, if g != 0 && g != t' then g else rst, r')
      && (if t' == 0 then Rest(tree, nb, v', rsize', r')
          else OwnWalk(tree, nb, v', rsize', n', r', low', bits') && AtNode(tree, t', n') && Steers(word', nb, low', bits'))
  {
    word' := (2 * word) % WORD;
    OwnWalkStep(tree, nb, v, rsize, n, r, low, bits, v', rsize');
    if bits == 0 {
      n', r', low', bits' := n.left, r, low, bits;
    } else {
      n', r', low', bits' := Child(n, nb, low, bits), NewRight(n, r, nb, low, bits), Half(nb, low, bits), bits - 1;
    }
  }

  /** Sizes in a lower bin are smaller. */
  lemma {:induction false} SizeInBin(t: Tree, i: nat, q: nat)
    requires OfBin(t, i) && Has(t, q)
    ensures MIN_LARGE_SIZE <= q < WORD && q % 8 == 0 && TreeIndex(q) == i
  {
    if t.size != q {
      SizeInBin(if Has(t.left, q) then t.left else t.right, i, q);
    }
  }

  lemma LowerBin(p: nat, q: nat)
    requires MIN_LARGE_SIZE <= p && MIN_LARGE_SIZE <= q && TreeIndex(p) < TreeIndex(q)
    ensures p < q
  {
    if q <= p {
      TreeIndexMono(q, p);
    }
  }

  /** Every chunk in the tree bins that fits is at least as large as v. */
  ghost predicate Best(trees: seq<Tree>, nb: nat, v: nat, rsize: nat) {
    forall j: nat, q: nat :: j < |trees| && Has(trees[j], q) && nb <= q ==> v != 0 && nb + rsize <= q
  }

  /** The search has passed over the bins from the request's own up to bin i: nothing in them fits. */
  ghost predicate Skipped(trees: seq<Tree>, nb: nat, i: nat)
    requires nb < WORD && TreeIndex(nb) <= i < |trees|
  {
    TreeIndex(nb) < i ==>
      && Rest(trees[TreeIndex(nb)], nb, 0, WORD - nb, Nil)
      && forall j :: TreeIndex(nb) < j < i ==> trees[j].Nil?
  }

  /** The search has ended in bin i. */
  ghost predicate Looked(trees: seq<Tree>, nb: nat, i: nat, v: nat, rsize: nat)
    requires nb < WORD && TreeIndex(nb) <= i < |trees|
  {
    && Rest(trees[i], nb, v, rsize, Nil) && Skipped(trees, nb, i)
    && (v == 0 ==> i == TreeIndex(nb) && forall j :: TreeIndex(nb) < j < |trees| ==> trees[j].Nil?)
  }

  lemma NothingFits(tree: Tree, nb: nat, rsize: nat)
    requires Rest(tree, nb, 0, rsize, Nil)
    ensures forall q: nat :: Has(tree, q) ==> q < nb
  {
    forall q: nat | Has(tree, q)
      ensures q < nb
    {
      NothingLeft(tree, nb, 0, rsize, q);
    }
  }

  lemma LookedIsBest(trees: seq<Tree>, nb: nat, i: nat, v: nat, rsize: nat)
    requires MIN_LARGE_SIZE <= nb < WORD && TreeIndex(nb) <= i < |trees|
    requires forall j :: 0 <= j < |trees| ==> OfBin(trees[j], j)
    requires Looked(trees, nb, i, v, rsize)
    requires v != 0 ==> MIN_LARGE_SIZE <= nb + rsize && TreeIndex(nb + rsize) == i
    ensures Best(trees, nb, v, rsize)
  {
    if TreeIndex(nb) < i {
      NothingFits(trees[TreeIndex(nb)], nb, WORD - nb);
    }
    forall j: nat, q: nat | j < |trees| && Has(trees[j], q) && nb <= q
      ensures v != 0 && nb + rsize <= q
    {
      SizeInBin(trees[j], j, q);
      TreeIndexMono(nb, q);
      if j == i {
        NothingLeft(trees[i], nb, v, rsize, q);
      } else if i < j && v != 0 {
        LowerBin(nb + rsize, q);
      }
    }
  }

  lemma LookedInBins(b: BinState, size: Mem, nb: nat, i: nat, v: nat, rsize: nat)
    requires BinsOk(b, size)
    requires MIN_LARGE_SIZE <= nb < WORD && TreeIndex(nb) <= i < NTREEBINS
    requires Looked(b.trees, nb, i, v, rsize) && GoodFit(size, b.trees[i], nb, v, rsize)
    ensures Best(b.trees, nb, v, rsize) && (v != 0 ==> nb + rsize < WORD)
  {
    forall j | 0 <= j < NTREEBINS
      ensures OfBin(b.trees[j], j)
    {
      assert TreeBinOk(b.w, size, b.treebins[j], b.treemap, b.trees[j], j);
    }
    assert TreeBinOk(b.w, size, b.treebins[i], b.treemap, b.trees[i], i);
    if v != 0 {
      SizeTellsBin(b.w, size, b.treebins[i], TreeBinAt(i), b.trees[i], i, v);
    }
    LookedIsBest(b.trees, nb, i, v, rsize);
  }

  /** All sizes in a tree fit a small request. */
  lemma SmallRequestFits(size: Mem, tree: Tree, nb: nat, i: nat, t: nat)
    requires 0 < nb < MIN_LARGE_SIZE && i < NTREEBINS && OfBin(tree, i)
    requires tree.Node? && tree.head == t && Trie(tree, BinLow(i), BinBits(i))
    ensures Rest(tree, nb, 0, WORD - nb, tree)
    ensures AtNode(tree, t, tree) && GoodFit(size, tree, nb, 0, WORD - nb)
  {
    LargeFits(tree, nb, i);
    FreshStart(size, tree, nb, t, BinLow(i), BinBits(i));
  }

  lemma {:induction false} LargeFits(tree: Tree, nb: nat, i: nat)
    requires nb < MIN_LARGE_SIZE && OfBin(tree, i)
    ensures AllFit(tree, nb)
  {
    if tree.Node? {
      LargeFits(tree.left, nb, i);
      LargeFits(tree.right, nb, i);
    }
  }

  /** The smallest chunk of the first non-empty tree is the smallest of all. */
  lemma SmallestIsBest(trees: seq<Tree>, nb: nat, i: nat, v: nat, rsize: nat)
    requires i < |trees| && (forall j :: 0 <= j < |trees| ==> OfBin(trees[j], j))
    requires (forall j :: 0 <= j < i ==> trees[j].Nil?) && Rest(trees[i], nb, v, rsize, Nil)
    requires v != 0 && MIN_LARGE_SIZE <= nb + rsize && TreeIndex(nb + rsize) == i
    ensures Best(trees, nb, v, rsize)
  {
    forall j: nat, q: nat | j < |trees| && Has(trees[j], q) && nb <= q
      ensures v != 0 && nb + rsize <= q
    {
      SizeInBin(trees[j], j, q);
      if j == i {
        NothingLeft(trees[i], nb, v, rsize, q);
      } else {
        LowerBin(nb + rsize, q);
      }
    }
  }

  lemma LeastTreeIsBest(b: BinState, size: Mem, nb: nat, i: nat, v: nat, rsize: nat)
    requires BinsOk(b, size)
    requires i < NTREEBINS && Rest(b.trees[i], nb, v, rsize, Nil) && GoodFit(size, b.trees[i], nb, v, rsize) && v != 0
    requires forall j :: 0 <= j < i ==> !Bit(b.treemap, j)
    ensures Best(b.trees, nb, v, rsize)
  {
    forall j | 0 <= j < NTREEBINS
      ensures OfBin(b.trees[j], j) && (Bit(b.treemap, j) <==> b.trees[j].Node?)
    {
      assert TreeBinOk(b.w, size, b.treebins[j], b.treemap, b.trees[j], j);
    }
    assert TreeBinOk(b.w, size, b.treebins[i], b.treemap, b.trees[i], i);
    SizeTellsBin(b.w, size, b.treebins[i], TreeBinAt(i), b.trees[i], i, v);
    SmallestIsBest(b.trees, nb, i, v, rsize);
  }

  lemma EmptyRest(tree: Tree, nb: nat, v: nat, rsize: nat)
    requires tree.Nil?
    ensures Rest(tree, nb, v, rsize, Nil)
  {
    assert Trie(Nil, 0, 0);
  }

  lemma NullIsNil(w: Words, size: Mem, root: nat, tree: Tree, i: nat, t: nat, n: Tree)
    requires Repr(w, size, root, TreeBinAt(i), tree, i) && AtNode(tree, t, n)
    ensures t == 0 <==> n.Nil?
  {
    if n.Node? {
      NotNull(w, size, root, TreeBinAt(i), tree, i, t);
    }
  }

  /** All sizes in a bin above the request's own fit. */
  lemma HigherTree(size: Mem, tree: Tree, nb: nat, t: nat, i: nat)
    requires MIN_LARGE_SIZE <= nb < WORD && TreeIndex(nb) < i < NTREEBINS && OfBin(tree, i)
    requires tree.Node? && tree.head == t && Trie(tree, BinLow(i), BinBits(i))
    ensures AtNode(tree, t, tree) && Rest(tree, nb, 0, WORD - nb, tree)
  {
    HigherFits(tree, nb, i);
    FreshStart(size, tree, nb, t, BinLow(i), BinBits(i));
  }

  lemma {:induction false} HigherFits(tree: Tree, nb: nat, i: nat)
    requires MIN_LARGE_SIZE <= nb && TreeIndex(nb) < i && OfBin(tree, i)
    ensures AllFit(tree, nb)
  {
    if tree.Node? {
      LowerBin(nb, tree.size);
      HigherFits(tree.left, nb, i);
      HigherFits(tree.right, nb, i);
    }
  }
}

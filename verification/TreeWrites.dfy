/** The writes that link a chunk into a tree bin, and the trees they leave in memory: a chunk becomes a
    leaf below a node, or joins the ring of the node of its size. Everything about which words change and
    which stay is said here, so that the walks need not look at words. */
module TreeWrites {
  import opened SizeTrie
  import opened Links

  /** The first writes of an insertion: bin index and no children. */
  function Cleared(w: Words, x: nat, bin: nat): Words {
    w.(bin := w.bin.Set(x, bin), left := w.left.Set(x, 0), right := w.right.Set(x, 0))
  }

  /** Chunk x alone in its ring, below `par`. */
  function Alone(w: Words, x: nat, par: nat): Words {
    w.(parent := w.parent.Set(x, par), fd := w.fd.Set(x, x), bk := w.bk.Set(x, x))
  }

  function ChildLink(w: Words, t: nat, onLeft: bool, x: nat): Words {
    if onLeft then w.(left := w.left.Set(t, x)) else w.(right := w.right.Set(t, x))
  }

  /** Chunk x behind t in the ring of t. */
  function Joining(w: Words, t: nat, x: nat): Words {
    var f := w.fd.At(t);
    w.(fd := w.fd.Set(t, x).Set(x, f), bk := w.bk.Set(f, x).Set(x, t), parent := w.parent.Set(x, 0))
  }

  /** Writes have put leaf x below node t and touched nothing else. */
  ghost predicate Attached(w: Words, w': Words, t: nat, onLeft: bool, x: nat, bin: nat) {
    && (forall y :: y != x && y != t ==> Same(w, w', y))
    && RingSame(w, w', t)
    && w'.left.At(t) == (if onLeft then x else w.left.At(t))
    && w'.right.At(t) == (if onLeft then w.right.At(t) else x)
    && IsLeaf(w', x, t, bin)
  }

  ghost predicate IsLeaf(w: Words, x: nat, par: nat, bin: nat) {
    && w.fd.At(x) == x && w.bk.At(x) == x && w.parent.At(x) == par && w.bin.At(x) == bin
    && w.left.At(x) == 0 && w.right.At(x) == 0
  }

  lemma AttachWrites(w: Words, t: nat, onLeft: bool, x: nat, bin: nat)
    requires t != x
    ensures Attached(w, Alone(ChildLink(Cleared(w, x, bin), t, onLeft, x), x, t), t, onLeft, x, bin)
  {}

  function Leaf(size: Mem, x: nat): Tree {
    Node(size.At(x), x, [], Nil, Nil)
  }

  lemma LeafRepr(w: Words, size: Mem, x: nat, par: nat, bin: nat)
    requires x != 0 && IsLeaf(w, x, par, bin)
    ensures Repr(w, size, x, par, Leaf(size, x), bin)
  {
    assert Leaf(size, x).Ring() == [x];
    assert Joined(w.fd, w.bk, [x], 0);
  }

  /** A subtree is changed in place, below its old root address, and nothing outside it is written. */
  lemma PlugSame(w: Words, w': Words, size: Mem, a: nat, par: nat, tree: Tree, bin: nat, x: nat, c: Tree)
    requires Repr(w, size, a, par, tree, bin) && Distinct(tree) && 0 < Count(tree, x)
    requires var n := Find(tree, x); Repr(w', size, n.head, w.parent.At(n.head), c, bin)
    requires forall y :: 0 < Count(tree, y) && Count(Find(tree, x), y) == 0 ==> Same(w, w', y)
    ensures Repr(w', size, a, par, Replace(tree, x, c), bin)
  {
    ReprPlug(w, w', size, size, a, par, tree, bin, x, Find(tree, x).head, c);
  }

  /** A new leaf below node t of the tree. */
  lemma AttachRepr(w: Words, w': Words, size: Mem, a: nat, par: nat, tree: Tree, bin: nat, t: nat, onLeft: bool, x: nat)
    requires Repr(w, size, a, par, tree, bin) && Distinct(tree)
    requires 0 < Count(tree, t) && Find(tree, t).head == t && Count(tree, x) == 0 && x != 0
    requires var n := Find(tree, t); if onLeft then n.left.Nil? else n.right.Nil?
    requires Attached(w, w', t, onLeft, x, bin)
    ensures var n := Find(tree, t);
      Repr(w', size, a, par, Replace(tree, t, if onLeft then n.(left := Leaf(size, x)) else n.(right := Leaf(size, x))), bin)
  {
    var n := Find(tree, t);
    var n' := if onLeft then n.(left := Leaf(size, x)) else n.(right := Leaf(size, x));
    ReprFind(w, size, a, par, tree, bin, t);
    FindDistinct(tree, t);
    FindCount(tree, t, x);
    AttachNode(w, w', size, w.parent.At(t), n, bin, onLeft, x);
    HeadCounted(n);
    PlugSame(w, w', size, a, par, tree, bin, t, n');
  }

  lemma AttachNode(w: Words, w': Words, size: Mem, par: nat, n: Tree, bin: nat, onLeft: bool, x: nat)
    requires n.Node? && Repr(w, size, n.head, par, n, bin) && Distinct(n) && Count(n, x) == 0 && x != 0
    requires if onLeft then n.left.Nil? else n.right.Nil?
    requires Attached(w, w', n.head, onLeft, x, bin)
    ensures Repr(w', size, n.head, par, if onLeft then n.(left := Leaf(size, x)) else n.(right := Leaf(size, x)), bin)
  {
    LeafRepr(w', size, x, n.head, bin);
    KeptIsCounted(n);
    assert !n.Keeps(x);
    assert forall y :: n.Keeps(y) && y != n.head ==> Same(w, w', y);
    assert forall y :: y in n.others ==> n.Keeps(y);
    NodeKept(w, w', size, size, par, n, bin);
    NodeRingOnly(w', size, par, n, if onLeft then n.(left := Leaf(size, x)) else n.(right := Leaf(size, x)), bin);
    ReprSame(w, w', size, if onLeft then w.right.At(n.head) else w.left.At(n.head), n.head,
             if onLeft then n.right else n.left, bin);
  }

  /** In a tree without repetitions the chunks of the root's ring are in neither child. */
  lemma KeptIsCounted(n: Tree)
    requires n.Node? && Distinct(n)
    ensures forall y :: n.Keeps(y) ==> 0 < Count(n, y) && Count(n.left, y) == 0 && Count(n.right, y) == 0
    ensures n.head !in n.others
  {
    assert Count(n, n.head) <= 1;
    forall y | n.Keeps(y)
      ensures 0 < Count(n, y) && Count(n.left, y) == 0 && Count(n.right, y) == 0
    {
      assert Count(n, y) <= 1;
    }
  }

  /** Writes have put chunk x into the ring of t, right behind t, and touched nothing else. */
  ghost predicate JoinedIn(w: Words, w': Words, t: nat, x: nat, bin: nat) {
    && w'.fd == w.fd.Set(t, x).Set(x, w.fd.At(t))
    && w'.bk == w.bk.Set(w.fd.At(t), x).Set(x, t)
    && w'.parent.At(x) == 0 && w'.bin.At(x) == bin && w'.left.At(x) == 0 && w'.right.At(x) == 0
    && (forall y :: y != x ==> LinksSame(w, w', y))
  }

  ghost predicate LinksSame(w: Words, w': Words, y: nat) {
    && w'.parent.At(y) == w.parent.At(y) && w'.bin.At(y) == w.bin.At(y)
    && w'.left.At(y) == w.left.At(y) && w'.right.At(y) == w.right.At(y)
  }

  lemma JoinWrites(w: Words, t: nat, x: nat, bin: nat)
    ensures JoinedIn(w, Joining(Cleared(w, x, bin), t, x), t, x, bin)
  {}

  /** A chunk of a size that has a node joins the ring of that node. */
  lemma JoinNode(w: Words, w': Words, size: Mem, par: nat, n: Tree, bin: nat, x: nat)
    requires n.Node? && Repr(w, size, n.head, par, n, bin) && Distinct(n)
    requires Count(n, x) == 0 && x != 0 && size.At(x) == n.size
    requires JoinedIn(w, w', n.head, x, bin)
    ensures Repr(w', size, n.head, par, n.(others := [x] + n.others), bin)
    ensures forall y :: !n.Keeps(y) && y != x ==> Same(w, w', y)
  {
    var n' := n.(others := [x] + n.others);
    KeptIsCounted(n);
    JoinElsewhere(w, w', n, x, bin);
    JoinRing(w, w', size, par, n, bin, x);
    ReprSame(w, w', size, w.left.At(n.head), n.head, n.left, bin);
    ReprSame(w, w', size, w.right.At(n.head), n.head, n.right, bin);
    assert LinksSame(w, w', n.head);
  }

  lemma JoinElsewhere(w: Words, w': Words, n: Tree, x: nat, bin: nat)
    requires n.Node? && Circular(w.fd, w.bk, n.Ring()) && JoinedIn(w, w', n.head, x, bin)
    ensures forall y :: !n.Keeps(y) && y != x ==> Same(w, w', y)
  {
    RingStays(w, n);
    forall y | !n.Keeps(y) && y != x
      ensures Same(w, w', y)
    {
      assert LinksSame(w, w', y);
    }
  }

  lemma JoinRing(w: Words, w': Words, size: Mem, par: nat, n: Tree, bin: nat, x: nat)
    requires n.Node? && NodeWords(w, size, par, n, bin) && Distinct(n)
    requires Count(n, x) == 0 && x != 0 && size.At(x) == n.size
    requires JoinedIn(w, w', n.head, x, bin)
    ensures NodeWords(w', size, par, n.(others := [x] + n.others), bin)
  {
    var n' := n.(others := [x] + n.others);
    KeptIsCounted(n);
    RingDistinct(n);
    RingInsert(w.fd, w.bk, n.head, n.others, x);
    assert !n.Keeps(x) && LinksSame(w, w', n.head);
    forall y | y in n'.others
      ensures w'.parent.At(y) == 0 && w'.left.At(y) == 0 && w'.right.At(y) == 0 && w'.bin.At(y) == bin
    {
      if y != x {
        assert LinksSame(w, w', y) && n.Keeps(y);
      }
    }
  }

  lemma RingDistinct(n: Tree)
    requires n.Node? && Distinct(n)
    ensures NoRepeats(n.Ring())
    ensures forall y :: y in n.Ring() <==> n.Keeps(y)
  {
    KeptIsCounted(n);
    forall i, j | 0 <= i < j < |n.others|
      ensures n.others[i] != n.others[j]
    {
      var y := n.others[j];
      assert Count(n, y) <= 1;
      assert n.others == n.others[..j] + [y] + n.others[j + 1..];
    }
  }

  /** fd leads from a ring to the same ring. */
  lemma RingStays(w: Words, n: Tree)
    requires n.Node? && Circular(w.fd, w.bk, n.Ring())
    ensures n.Keeps(w.fd.At(n.head)) && n.Keeps(w.bk.At(n.head))
  {
    assert Joined(w.fd, w.bk, n.Ring(), 0) && Joined(w.fd, w.bk, n.Ring(), |n.others|);
  }

  /** The words of a subtree are those of a tree. */
  lemma {:induction false} ReprFind(w: Words, size: Mem, a: nat, par: nat, t: Tree, bin: nat, x: nat)
    requires Repr(w, size, a, par, t, bin) && 0 < Count(t, x)
    ensures var n := Find(t, x); Repr(w, size, n.head, w.parent.At(n.head), n, bin)
    decreases t
  {
    if !t.Keeps(x) {
      if 0 < Count(t.left, x) {
        ReprFind(w, size, w.left.At(a), a, t.left, bin, x);
      } else {
        ReprFind(w, size, w.right.At(a), a, t.right, bin, x);
      }
    }
  }
}

/** Unlinking a chunk from a tree bin: the writes, and the tree they leave in memory. First the replacement
    of a node is made ready, from its ring or by cutting off the rightmost leaf below it; then the link above
    the node goes to the replacement, which takes over its parent and its children. */
module TreeUnlink {
  import opened SizeTrie
  import opened Links
  import opened TreeWrites
  import opened BinIndex
  import opened BitWords
  import opened Bins

  /** A chunk's children link back to it, and they are two different ones. */
  lemma {:induction false} ChildHasParent(w: Words, size: Mem, a: nat, par: nat, t: Tree, bin: nat, y: nat)
    requires Repr(w, size, a, par, t, bin) && Distinct(t) && 0 < Count(t, y)
    ensures w.left.At(y) != 0 ==> w.parent.At(w.left.At(y)) == y && w.left.At(y) != w.right.At(y)
    ensures w.right.At(y) != 0 ==> w.parent.At(w.right.At(y)) == y
    decreases t
  {
    if t.Keeps(y) {
      HeadCounted(t.left);
      HeadCounted(t.right);
      if t.left.Node? {
        assert Count(t, t.left.head) <= 1;
      }
    } else {
      DistinctParts(t);
      if 0 < Count(t.left, y) {
        ChildHasParent(w, size, w.left.At(a), a, t.left, bin, y);
      } else {
        ChildHasParent(w, size, w.right.At(a), a, t.right, bin, y);
      }
    }
  }

  /** A node below the root is a child of its parent, which lies outside its subtree. */
  lemma {:induction false} ParentLink(w: Words, size: Mem, a: nat, par: nat, t: Tree, bin: nat, h: nat)
    requires Repr(w, size, a, par, t, bin) && Distinct(t) && 0 < Count(t, h)
    requires Find(t, h).head == h && h != a
    ensures var p := w.parent.At(h);
      && 0 < Count(t, p) && Count(Find(t, h), p) == 0
      && (w.left.At(p) == h || w.right.At(p) == h)
    decreases t
  {
    if !t.Keeps(h) {
      DistinctParts(t);
      var onLeft := 0 < Count(t.left, h);
      var side := if onLeft then t.left else t.right;
      FindCount(side, h, a);
      assert Count(t, a) <= 1;
      HeadOfPart(side, h);
      if !side.Keeps(h) {
        var b := if onLeft then w.left.At(a) else w.right.At(a);
        assert b == side.head;
        ParentLink(w, size, b, a, side, bin, h);
      }
    }
  }

  /** Chunk x taken out of its ring: its neighbours are linked to each other. */
  function Unringed(w: Words, x: nat): Words {
    w.(bk := w.bk.Set(w.fd.At(x), w.bk.At(x)), fd := w.fd.Set(w.bk.At(x), w.fd.At(x)))
  }

  lemma UnringedElsewhere(w: Words, n: Tree, x: nat)
    requires n.Node? && Distinct(n) && Circular(w.fd, w.bk, n.Ring()) && n.Keeps(x)
    ensures n.Keeps(w.fd.At(x)) && n.Keeps(w.bk.At(x))
    ensures forall y :: !n.Keeps(y) ==> Same(w, Unringed(w, x), y)
  {
    RingDistinct(n);
    var i :| 0 <= i < |n.Ring()| && n.Ring()[i] == x;
    assert Joined(w.fd, w.bk, n.Ring(), i);
    assert Joined(w.fd, w.bk, n.Ring(), if i == 0 then |n.others| else i - 1);
  }

  lemma {:induction false} WithoutIsCut(xs: seq<nat>, x: nat, i: nat)
    requires i < |xs| && xs[i] == x && forall j :: 0 <= j < i ==> xs[j] != x
    ensures Without(xs, x) == xs[..i] + xs[i + 1..]
  {
    if i != 0 {
      WithoutIsCut(xs[1..], x, i - 1);
      assert xs[..i] == [xs[0]] + xs[1..][..i - 1];
    }
  }

  /** A chunk behind the node leaves the ring. */
  lemma UnringMember(w: Words, size: Mem, par: nat, n: Tree, bin: nat, x: nat)
    requires n.Node? && NodeWords(w, size, par, n, bin) && Distinct(n) && x in n.others
    ensures NodeWords(Unringed(w, x), size, par, n.(others := Without(n.others, x)), bin)
  {
    RingDistinct(n);
    var i :| 0 <= i < |n.others| && n.others[i] == x;
    assert n.Ring()[i + 1] == x;
    RingRemove(w.fd, w.bk, n.Ring(), i + 1);
    assert forall j :: 0 <= j < i ==> n.Ring()[j + 1] == n.others[j];
    WithoutIsCut(n.others, x, i);
    CutBehind(n.head, n.others, i);
  }

  lemma CutBehind(head: nat, others: seq<nat>, i: nat)
    requires i < |others|
    ensures ([head] + others)[..i + 1] + ([head] + others)[i + 2..] == [head] + (others[..i] + others[i + 1..])
  {}

  /** The node itself leaves the ring: the ring is read from its last chunk on. */
  lemma UnringHead(w: Words, n: Tree)
    requires n.Node? && Circular(w.fd, w.bk, n.Ring()) && Distinct(n) && n.others != []
    ensures var k := |n.others| - 1; var w' := Unringed(w, n.head);
      && w.bk.At(n.head) == n.others[k]
      && Circular(w'.fd, w'.bk, [n.others[k]] + n.others[..k])
  {
    var k := |n.others| - 1;
    RingDistinct(n);
    RingRemove(w.fd, w.bk, n.Ring(), 0);
    assert Joined(w.fd, w.bk, n.Ring(), k + 1);
    assert n.Ring()[..0] + n.Ring()[1..] == n.others == n.others[..k] + [n.others[k]];
    var w' := Unringed(w, n.head);
    RingRotate(w'.fd, w'.bk, n.others[..k], [n.others[k]]);
  }

  /** Chunk r takes over the place below `par` and the children of x. */
  function Relinked(w: Words, x: nat, r: nat, par: nat): Words {
    var w0 := w.(parent := w.parent.Set(r, par));
    var w1 := if w0.left.At(x) == 0 then w0
              else w0.(left := w0.left.Set(r, w0.left.At(x)), parent := w0.parent.Set(w0.left.At(x), r));
    if w1.right.At(x) == 0 then w1
    else w1.(right := w1.right.Set(r, w1.right.At(x)), parent := w1.parent.Set(w1.right.At(x), r))
  }

  /** The node m is complete but for its parent link and its children, which still hang below x. */
  ghost predicate Replacement(w: Words, size: Mem, x: nat, m: Tree, bin: nat) {
    && m.Node? && Distinct(m) && Count(m, x) == 0
    && NodeWords(w, size, w.parent.At(m.head), m, bin)
    && w.left.At(m.head) == 0 && w.right.At(m.head) == 0
    && Repr(w, size, w.left.At(x), x, m.left, bin)
    && Repr(w, size, w.right.At(x), x, m.right, bin)
  }

  /** Which words that writes: chunk r has the parent and the children, and these have r as parent. */
  ghost predicate TookOver(w: Words, w': Words, x: nat, r: nat, par: nat) {
    var l, g := w.left.At(x), w.right.At(x);
    && w'.fd == w.fd && w'.bk == w.bk && w'.bin == w.bin
    && w'.parent.At(r) == par && w'.left.At(r) == l && w'.right.At(r) == g
    && (l != 0 ==> w'.parent.At(l) == r) && (g != 0 ==> w'.parent.At(g) == r)
    && (forall y :: y != r && (l == 0 || y != l) && (g == 0 || y != g) ==> Same(w, w', y))
    && Same(w, w'.(parent := w.parent), l) && Same(w, w'.(parent := w.parent), g)
  }

  lemma RelinkedWords(w: Words, x: nat, r: nat, par: nat)
    requires x != r && w.left.At(r) == 0 && w.right.At(r) == 0
    requires var l, g := w.left.At(x), w.right.At(x); r != l && r != g && (l != g || l == 0)
    ensures TookOver(w, Relinked(w, x, r, par), x, r, par)
  {}

  lemma RelinkRepr(w: Words, size: Mem, x: nat, par: nat, m: Tree, bin: nat)
    requires Replacement(w, size, x, m, bin)
    ensures Repr(Relinked(w, x, m.head, par), size, m.head, par, m, bin)
    ensures forall y :: Count(m, y) == 0 ==> Same(w, Relinked(w, x, m.head, par), y)
  {
    RelinkApart(w, size, x, m, bin);
    RelinkedWords(w, x, m.head, par);
    TookOverRepr(w, Relinked(w, x, m.head, par), size, x, par, m, bin);
  }

  lemma TookOverRepr(w: Words, w': Words, size: Mem, x: nat, par: nat, m: Tree, bin: nat)
    requires Replacement(w, size, x, m, bin) && TookOver(w, w', x, m.head, par)
    ensures Repr(w', size, m.head, par, m, bin)
    ensures forall y :: Count(m, y) == 0 ==> Same(w, w', y)
  {
    RelinkApart(w, size, x, m, bin);
    assert forall y :: m.Keeps(y) && y != m.head ==> Same(w, w', y);
    ReprMoved(w, w', size, w.left.At(x), x, m.head, m.left, bin);
    ReprMoved(w, w', size, w.right.At(x), x, m.head, m.right, bin);
    NodeMoved(w, w', size, w.parent.At(m.head), par, m, bin);
  }

  lemma RelinkApart(w: Words, size: Mem, x: nat, m: Tree, bin: nat)
    requires Replacement(w, size, x, m, bin)
    ensures Distinct(m.left) && Distinct(m.right)
    ensures var r, l, g := m.head, w.left.At(x), w.right.At(x);
      && r != x && r != l && r != g && (l != g || l == 0) && m.Here(r) <= 1
      && (forall y :: m.Keeps(y) ==> 0 < Count(m, y) && Count(m.left, y) == 0 && Count(m.right, y) == 0
                                     && (l == 0 || y != l) && (g == 0 || y != g))
      && (l != 0 ==> 0 < Count(m.left, l) && Count(m.right, l) == 0)
      && (g != 0 ==> 0 < Count(m.right, g) && Count(m.left, g) == 0)
      && r !in m.others && (forall y :: y in m.others ==> m.Keeps(y))
  {
    KeptIsCounted(m);
    DistinctParts(m);
    HeadCounted(m);
    HeadCounted(m.left);
    HeadCounted(m.right);
    assert m.Keeps(m.head) && Count(m, m.head) <= 1;
    assert w.left.At(x) != 0 ==> Count(m, w.left.At(x)) <= 1;
    assert w.right.At(x) != 0 ==> Count(m, w.right.At(x)) <= 1;
  }

  /** The words after the first phase of unlinking node n's head: the replacement for n is ready, and
      nothing outside n was written. */
  ghost predicate Prepared(w: Words, w1: Words, size: Mem, n: Tree, bin: nat) {
    && n.Node?
    && (var m := Drop(n, n.head); m.Node? ==> Replacement(w1, size, n.head, m, bin))
    && (forall y :: Count(n, y) == 0 ==> Same(w, w1, y))
    && w1.parent.At(n.head) == w.parent.At(n.head) && w1.bin.At(n.head) == w.bin.At(n.head)
  }

  lemma DropApart(n: Tree, x: nat)
    requires Distinct(n) && n.Keeps(x)
    ensures Distinct(Drop(n, x)) && Count(Drop(n, x), x) == 0
    ensures forall y :: Count(Drop(n, x), y) <= Count(n, y)
  {
    forall y
      ensures Count(Drop(n, x), y) <= 1 && Count(Drop(n, x), y) <= Count(n, y)
    {
      DropCount(n, x, y);
      assert Count(n, y) <= 1;
    }
    DropCount(n, x, x);
    assert Count(n, x) <= 1;
  }

  /** First phase, chunks of the same size left: the ring closes over the gap. */
  lemma PreparedByRing(w: Words, size: Mem, par: nat, n: Tree, bin: nat)
    requires n.Node? && Repr(w, size, n.head, par, n, bin) && Distinct(n) && n.others != []
    ensures Prepared(w, Unringed(w, n.head), size, n, bin)
    ensures w.bk.At(n.head) == Drop(n, n.head).head
  {
    var w1, m := Unringed(w, n.head), Drop(n, n.head);
    KeptIsCounted(n);
    UnringHead(w, n);
    UnringedElsewhere(w, n, n.head);
    DropApart(n, n.head);
    assert m.Ring() == [n.others[|n.others| - 1]] + n.others[..|n.others| - 1];
    assert m.head in n.others && forall y :: m.Keeps(y) ==> n.Keeps(y);
    ReprSame(w, w1, size, w.left.At(n.head), n.head, n.left, bin);
    ReprSame(w, w1, size, w.right.At(n.head), n.head, n.right, bin);
  }

  /** The rightmost leaf of a tree is cut off its parent p. */
  /** A link from y to h, if there is one, has become null; nothing else has changed at y. */
  ghost predicate CutAt(w: Words, w1: Words, size: Mem, y: nat, h: nat) {
    && Kept(w, w1, size, size, y, h)
    && (w.left.At(y) == h ==> w1.left.At(y) == 0) && (w.right.At(y) == h ==> w1.right.At(y) == 0)
  }

  lemma DetachSide(w: Words, size: Mem, x: nat, side: Tree, bin: nat, p: nat, onLeft: bool)
    requires side.Node? && Repr(w, size, side.head, x, side, bin) && Distinct(side) && Count(side, x) == 0
    requires var leaf := RightmostLeaf(side);
      && p == w.parent.At(leaf.head)
      && (if onLeft then w.left.At(p) else w.right.At(p)) == leaf.head
      && (w.left.At(p) != w.right.At(p))
    ensures var leaf := RightmostLeaf(side); var w1 := ChildLink(w, p, onLeft, 0);
      && Repr(w1, size, if side == leaf then 0 else side.head, x, WithoutRightmost(side), bin)
      && (side == leaf ==> p == x) && (side != leaf ==> 0 < Count(side, p))
      && NodeWords(w1, size, p, leaf, bin) && w1.left.At(leaf.head) == 0 && w1.right.At(leaf.head) == 0
  {
    var leaf := RightmostLeaf(side);
    var w1 := ChildLink(w, p, onLeft, 0);
    FindRightmost(side);
    ReprFind(w, size, side.head, x, side, bin, leaf.head);
    HeadOfPart(side, leaf.head);
    if side != leaf {
      ParentLink(w, size, side.head, x, side, bin, leaf.head);
    }
    assert leaf.Keeps(leaf.head);
    assert !leaf.Keeps(p) || side == leaf;
    NodeKept(w, w1, size, size, p, leaf, bin);
    forall y | 0 < Count(side, y) && Count(leaf, y) == 0
      ensures CutAt(w, w1, size, y, leaf.head)
    {
      ChildHasParent(w, size, side.head, x, side, bin, y);
    }
    ReprPlug(w, w1, size, size, side.head, x, side, bin, leaf.head, 0, Nil);
  }

  /** The child below which the replacement of a node without a ring is found. */
  function DeepSide(n: Tree): Tree
    requires n.Node?
  {
    if n.right.Node? then n.right else n.left
  }

  /** Where the link to the rightmost leaf below n is: in n itself, or in a node on that side. */
  lemma LeafLink(w: Words, size: Mem, par: nat, n: Tree, bin: nat, p: nat, onLeft: bool)
    requires n.Node? && Repr(w, size, n.head, par, n, bin) && Distinct(n) && DeepSide(n).Node?
    requires var leaf := RightmostLeaf(DeepSide(n));
      && p == w.parent.At(leaf.head)
      && (if onLeft then w.left.At(p) else w.right.At(p)) == leaf.head
    ensures w.left.At(p) != w.right.At(p)
    ensures Count(n.left, n.head) == 0 && Count(n.right, n.head) == 0 && Distinct(n.left) && Distinct(n.right)
    ensures if p == n.head then onLeft == n.right.Nil?
            else Count(if n.right.Node? then n.left else n.right, p) == 0 && !n.Keeps(p) && 0 < Count(n, p)
  {
    var side := DeepSide(n);
    var leaf := RightmostLeaf(side);
    KeptIsCounted(n);
    DistinctParts(n);
    FindRightmost(side);
    HeadOfPart(side, leaf.head);
    ReprFind(w, size, side.head, n.head, side, bin, leaf.head);
    assert leaf.Keeps(leaf.head);
    if side != leaf {
      ParentLink(w, size, side.head, n.head, side, bin, leaf.head);
    }
    assert Count(n, p) <= 1 && 0 < Count(n, p);
    ChildHasParent(w, size, n.head, par, n, bin, p);
    if p == n.head {
      HeadCounted(n.left);
      assert Count(n, leaf.head) <= 1;
    }
  }

  /** First phase, no chunk of this size left: the rightmost leaf below is cut off. */
  lemma PreparedByLeaf(w: Words, size: Mem, par: nat, n: Tree, bin: nat, p: nat, onLeft: bool)
    requires n.Node? && Repr(w, size, n.head, par, n, bin) && Distinct(n) && n.others == []
    requires DeepSide(n).Node?
    requires var leaf := RightmostLeaf(DeepSide(n));
      && p == w.parent.At(leaf.head)
      && (if onLeft then w.left.At(p) else w.right.At(p)) == leaf.head
    ensures Prepared(w, ChildLink(w, p, onLeft, 0), size, n, bin)
    ensures Drop(n, n.head).Node? && Drop(n, n.head).head == RightmostLeaf(DeepSide(n)).head
  {
    var x, side := n.head, DeepSide(n);
    var leaf, w1, m := RightmostLeaf(side), ChildLink(w, p, onLeft, 0), Drop(n, n.head);
    LeafLink(w, size, par, n, bin, p, onLeft);
    DetachSide(w, size, x, side, bin, p, onLeft);
    DropApart(n, x);
    HeadCounted(n);
    NodeRingOnly(w1, size, p, leaf, m, bin);
    if n.right.Node? {
      OtherSideSame(w, n, p, onLeft);
      ReprSame(w, w1, size, w.left.At(x), x, n.left, bin);
    }
  }

  lemma OtherSideSame(w: Words, n: Tree, p: nat, onLeft: bool)
    requires n.Node? && Distinct(n) && n.right.Node? && (p == n.head || 0 < Count(n.right, p))
    ensures forall y :: 0 < Count(n.left, y) ==> Same(w, ChildLink(w, p, onLeft, 0), y)
  {
    forall y | 0 < Count(n.left, y)
      ensures Same(w, ChildLink(w, p, onLeft, 0), y)
    {
      assert Count(n, y) <= 1 && Count(n, p) <= 1;
    }
  }

  /** Second phase: the link above x goes to r, and r takes over the parent and the children of x. */
  function Succeeded(w: Words, root: nat, x: nat, xp: nat, r: nat): Words {
    var w2 := if x == root then w else ChildLink(w, xp, w.left.At(xp) == x, r);
    if r == 0 then w2 else Relinked(w2, x, r, xp)
  }

  lemma ReplacementKept(w: Words, w': Words, size: Mem, x: nat, m: Tree, bin: nat)
    requires Replacement(w, size, x, m, bin)
    requires forall y :: 0 < Count(m, y) || y == x ==> Same(w, w', y)
    ensures Replacement(w', size, x, m, bin)
  {
    assert Same(w, w', x);
    KeptIsCounted(m);
    HeadCounted(m);
    assert forall y :: m.Keeps(y) ==> Same(w, w', y);
    assert forall y :: y in m.others ==> m.Keeps(y);
    NodeKept(w, w', size, size, w.parent.At(m.head), m, bin);
    ReprSame(w, w', size, w.left.At(x), x, m.left, bin);
    ReprSame(w, w', size, w.right.At(x), x, m.right, bin);
  }

  /** The link above an inner node, told apart from the parent's other child. */
  lemma LinkAbove(w: Words, size: Mem, root: nat, par: nat, tree: Tree, bin: nat, x: nat)
    requires Repr(w, size, root, par, tree, bin) && Distinct(tree) && 0 < Count(tree, x)
    requires Find(tree, x).head == x && x != root
    ensures var xp := w.parent.At(x);
      && 0 < Count(tree, xp) && Count(Find(tree, x), xp) == 0 && xp != x
      && (if w.left.At(xp) == x then w.right.At(xp) != x else w.right.At(xp) == x)
    ensures x != 0
  {
    ParentLink(w, size, root, par, tree, bin, x);
    ReprFind(w, size, root, par, tree, bin, x);
    HeadCounted(Find(tree, x));
    ChildHasParent(w, size, root, par, tree, bin, w.parent.At(x));
  }

  /** The node in the place of x, complete, and what was written. */
  lemma SucceededNode(w: Words, w1: Words, size: Mem, root: nat, par: nat, tree: Tree, bin: nat, x: nat)
    requires Repr(w, size, root, par, tree, bin) && Distinct(tree) && 0 < Count(tree, x)
    requires Find(tree, x).head == x && Prepared(w, w1, size, Find(tree, x), bin)
    ensures var m := Drop(Find(tree, x), x); var r := if m.Node? then m.head else 0;
      var w3 := Succeeded(w1, root, x, w.parent.At(x), r);
      && Repr(w3, size, r, w.parent.At(x), m, bin)
      && (forall y :: Count(Find(tree, x), y) == 0 && (x == root || y != w.parent.At(x)) ==> Same(w, w3, y))
      && (x != root ==> var p := w.parent.At(x);
            && RingSame(w, w3, p)
            && w3.left.At(p) == (if w.left.At(p) == x then r else w.left.At(p))
            && w3.right.At(p) == (if w.left.At(p) == x then w.right.At(p) else r))
  {
    var n, m, p := Find(tree, x), Drop(Find(tree, x), x), w.parent.At(x);
    var r := if m.Node? then m.head else 0;
    var w2 := if x == root then w1 else ChildLink(w1, p, w1.left.At(p) == x, r);
    FindDistinct(tree, x);
    DropApart(n, x);
    HeadCounted(n);
    if x != root {
      LinkAbove(w, size, root, par, tree, bin, x);
      assert Same(w, w1, p);
    }
    if m.Node? {
      assert forall y :: x == root || y != p ==> Same(w1, w2, y);
      ReplacementKept(w1, w2, size, x, m, bin);
      assert m.Keeps(m.head) && r != 0;
      RelinkRepr(w2, size, x, p, m, bin);
    }
    SucceededElsewhere(w, w1, w2, Succeeded(w1, root, x, p, r), n, m, x == root, p);
  }

  lemma SucceededElsewhere(w: Words, w1: Words, w2: Words, w3: Words, n: Tree, m: Tree, atRoot: bool, p: nat)
    requires forall y :: Count(m, y) <= Count(n, y)
    requires forall y :: Count(n, y) == 0 ==> Same(w, w1, y)
    requires forall y :: atRoot || y != p ==> Same(w1, w2, y)
    requires w3 == w2 || forall y :: Count(m, y) == 0 ==> Same(w2, w3, y)
    ensures forall y :: Count(n, y) == 0 && (atRoot || y != p) ==> Same(w, w3, y)
    ensures Count(n, p) == 0 ==> w3 == w2 || Same(w2, w3, p)
  {
    forall y | Count(n, y) == 0 && (atRoot || y != p)
      ensures Same(w, w3, y)
    {
      assert Same(w, w1, y) && Same(w1, w2, y);
      assert Count(m, y) <= Count(n, y);
    }
    assert Count(m, p) <= Count(n, p);
  }

  /** Unlinking a node leaves the tree without its chunk. */
  lemma UnlinkedNode(w: Words, w1: Words, size: Mem, root: nat, par: nat, tree: Tree, bin: nat, x: nat)
    requires Repr(w, size, root, par, tree, bin) && Distinct(tree) && 0 < Count(tree, x) && Count(tree, par) == 0
    requires Find(tree, x).head == x && Prepared(w, w1, size, Find(tree, x), bin)
    ensures var m := Drop(Find(tree, x), x); var r := if m.Node? then m.head else 0;
      var w3 := Succeeded(w1, root, x, w.parent.At(x), r);
      && Repr(w3, size, if x == root then r else root, par, Remove(tree, x), bin)
      && (forall y :: Count(tree, y) == 0 ==> Same(w, w3, y))
  {
    var n, p := Find(tree, x), w.parent.At(x);
    var m := Drop(n, x);
    var r := if m.Node? then m.head else 0;
    var w3 := Succeeded(w1, root, x, p, r);
    SucceededNode(w, w1, size, root, par, tree, bin, x);
    RemoveIsReplace(tree, x);
    HeadOfPart(tree, x);
    if x != root {
      LinkAbove(w, size, root, par, tree, bin, x);
    }
    forall y | 0 < Count(tree, y) && Count(n, y) == 0
      ensures Kept(w, w3, size, size, y, x)
      ensures w.left.At(y) == x ==> w3.left.At(y) == r
      ensures w.right.At(y) == x ==> w3.right.At(y) == r
    {
      ChildHasParent(w, size, root, par, tree, bin, y);
      assert y != p ==> Same(w, w3, y);
    }
    ReprPlug(w, w3, size, size, root, par, tree, bin, x, r, m);
    forall y | Count(tree, y) == 0
      ensures Same(w, w3, y)
    {
      FindCount(tree, x, y);
    }
  }

  /** Unlinking a chunk that hangs off a node. */
  lemma UnlinkedMember(w: Words, size: Mem, root: nat, par: nat, tree: Tree, bin: nat, x: nat)
    requires Repr(w, size, root, par, tree, bin) && Distinct(tree) && 0 < Count(tree, x)
    requires Find(tree, x).head != x
    ensures Repr(Unringed(w, x), size, root, par, Remove(tree, x), bin)
    ensures forall y :: Count(tree, y) == 0 ==> Same(w, Unringed(w, x), y)
    ensures w.parent.At(x) == 0 && w.bk.At(x) != x
  {
    var n, w1 := Find(tree, x), Unringed(w, x);
    ReprFind(w, size, root, par, tree, bin, x);
    FindDistinct(tree, x);
    KeptIsCounted(n);
    UnringedElsewhere(w, n, x);
    UnringMember(w, size, w.parent.At(n.head), n, bin, x);
    MemberLinks(w, n, x);
    ReprSame(w, w1, size, w.left.At(n.head), n.head, n.left, bin);
    ReprSame(w, w1, size, w.right.At(n.head), n.head, n.right, bin);
    assert Repr(w1, size, n.head, w.parent.At(n.head), Drop(n, x), bin);
    forall y
      ensures Count(n, y) <= Count(tree, y)
    {
      FindCount(tree, x, y);
    }
    PlugSame(w, w1, size, root, par, tree, bin, x, Drop(n, x));
    RemoveIsReplace(tree, x);
  }

  /** Only a chunk alone in its ring links back to itself. */
  lemma MemberLinks(w: Words, n: Tree, x: nat)
    requires n.Node? && Circular(w.fd, w.bk, n.Ring()) && Distinct(n) && n.Keeps(x)
    ensures w.bk.At(x) == x <==> n.others == []
  {
    RingDistinct(n);
    var i :| 0 <= i < |n.Ring()| && n.Ring()[i] == x;
    var before := if i == 0 then |n.others| else i - 1;
    assert Joined(w.fd, w.bk, n.Ring(), before);
    assert Following(n.Ring(), before) == x;
  }

  /** What unlinking makes of the bin. */
  lemma RemoveBin(w: Words, w': Words, size: Mem, root: nat, root': nat, treemap: nat, treemap': nat,
                  tree: Tree, i: nat, x: nat)
    requires i < NTREEBINS && TreeBinOk(w, size, root, treemap, tree, i) && 0 < Count(tree, x)
    requires Repr(w', size, root', TreeBinAt(i), Remove(tree, x), i)
    requires Bit(treemap', i) <==> Remove(tree, x).Node?
    ensures TreeBinOk(w', size, root', treemap', Remove(tree, x), i)
  {
    RemoveIsTrie(tree, x, BinLow(i), BinBits(i));
    RemoveOfBin(tree, i, x);
    forall y
      ensures Count(Remove(tree, x), y) == Count(tree, y) - if x == y then 1 else 0
    {
      RemoveCount(tree, x, y);
    }
  }

  lemma {:induction false} RemoveOfBin(t: Tree, i: nat, x: nat)
    requires OfBin(t, i)
    ensures OfBin(Remove(t, x), i)
  {
    if t.Node? {
      if t.Keeps(x) {
        if t.right.Node? {
          RightmostOfBin(t.right, i);
        }
        if t.left.Node? {
          RightmostOfBin(t.left, i);
        }
      } else {
        RemoveOfBin(t.left, i, x);
        RemoveOfBin(t.right, i, x);
      }
    }
  }

  lemma {:induction false} RightmostOfBin(t: Tree, i: nat)
    requires OfBin(t, i) && t.Node?
    ensures OfBin(WithoutRightmost(t), i) && OfBin(RightmostLeaf(t), i)
  {
    if t.right.Node? {
      RightmostOfBin(t.right, i);
    } else if t.left.Node? {
      RightmostOfBin(t.left, i);
    }
  }

  /** Unlinking from one tree bin leaves all bins in order. */
  lemma RemovedBins(b: BinState, b': BinState, size: Mem, i: nat, x: nat)
    requires BinsOk(b, size) && i < NTREEBINS && 0 < Count(b.trees[i], x)
    requires b'.treemap == if Remove(b.trees[i], x).Nil? then And(b.treemap, Not(Idx2Bit(i))) else b.treemap
    requires |b'.treebins| == NTREEBINS && b'.treebins == b.treebins[i := b'.treebins[i]]
    requires forall y :: Count(b.trees[i], y) == 0 ==> Same(b.w, b'.w, y)
    requires Repr(b'.w, size, b'.treebins[i], TreeBinAt(i), Remove(b.trees[i], x), i)
    requires b'.trees == b.trees[i := Remove(b.trees[i], x)] && b'.smallmap == b.smallmap && b'.small == b.small
    ensures BinsOk(b', size)
  {
    assert TreeBinOk(b.w, size, b.treebins[i], b.treemap, b.trees[i], i);
    MarkClear(b.treemap, i, i);
    RemoveBin(b.w, b'.w, size, b.treebins[i], b'.treebins[i], b.treemap, b'.treemap, b.trees[i], i, x);
    forall j | 0 <= j < NTREEBINS
      ensures j != i ==> TreeBinOk(b'.w, size, b'.treebins[j], b'.treemap, b.trees[j], j)
      ensures SmallBinOk(b'.w, size, b.smallmap, b.small[j], j)
    {
      MarkClear(b.treemap, i, j);
      NotElsewhere(b, size, i, x, j);
      TreeWriteFrame(b, b'.w, b'.treemap, size, i, x, j);
    }
  }

  /** The walk to the rightmost leaf below n has come to node r, linked from p. */
  ghost predicate WalkingRight(w: Words, n: Tree, m: Tree, r: nat, p: nat, onLeft: bool) {
    && n.Node? && DeepSide(n).Node? && Distinct(DeepSide(n))
    && m.Node? && m.head == r && 0 < Count(DeepSide(n), r) && Find(DeepSide(n), r) == m
    && RightmostLeaf(m) == RightmostLeaf(DeepSide(n))
    && w.parent.At(r) == p && (if onLeft then w.left.At(p) else w.right.At(p)) == r
  }

  lemma WalkRightStarts(w: Words, size: Mem, par: nat, n: Tree, bin: nat)
    requires n.Node? && Repr(w, size, n.head, par, n, bin) && Distinct(n)
    ensures n.right.Node? <==> w.right.At(n.head) != 0
    ensures n.left.Node? <==> w.left.At(n.head) != 0
    ensures DeepSide(n).Node? ==>
      WalkingRight(w, n, DeepSide(n), if n.right.Node? then w.right.At(n.head) else w.left.At(n.head), n.head, n.right.Nil?)
  {
    DistinctParts(n);
    HeadIsNotNull(w, size, w.right.At(n.head), n.head, n.right, bin);
    HeadIsNotNull(w, size, w.left.At(n.head), n.head, n.left, bin);
  }

  lemma HeadIsNotNull(w: Words, size: Mem, a: nat, par: nat, t: Tree, bin: nat)
    requires Repr(w, size, a, par, t, bin)
    ensures t.Node? <==> a != 0
    ensures t.Node? ==> t.head == a && w.parent.At(a) == par && w.bin.At(a) == bin && size.At(a) == t.size
  {
    if t.Node? {
      assert t.Keeps(t.head);
    }
  }

  lemma WalkRightStep(w: Words, size: Mem, par: nat, n: Tree, bin: nat, m: Tree, r: nat, p: nat, onLeft: bool)
    requires n.Node? && Repr(w, size, n.head, par, n, bin) && Distinct(n)
    requires WalkingRight(w, n, m, r, p, onLeft)
    ensures m.right.Node? <==> w.right.At(r) != 0
    ensures m.left.Node? <==> w.left.At(r) != 0
    ensures m.right.Node? ==> WalkingRight(w, n, m.right, w.right.At(r), r, false)
    ensures m.right.Nil? && m.left.Node? ==> WalkingRight(w, n, m.left, w.left.At(r), r, true)
  {
    var side := DeepSide(n);
    ReprFind(w, size, side.head, n.head, side, bin, r);
    WalkRightLinks(w, size, m, bin);
    if m.right.Node? {
      FindChild(side, r, false, Nil);
    } else if m.left.Node? {
      FindChild(side, r, true, Nil);
    }
  }

  lemma WalkRightLinks(w: Words, size: Mem, m: Tree, bin: nat)
    requires m.Node? && Repr(w, size, m.head, w.parent.At(m.head), m, bin)
    ensures m.right.Node? <==> w.right.At(m.head) != 0
    ensures m.left.Node? <==> w.left.At(m.head) != 0
    ensures m.right.Node? ==> w.right.At(m.head) == m.right.head && w.parent.At(m.right.head) == m.head
    ensures m.left.Node? ==> w.left.At(m.head) == m.left.head && w.parent.At(m.left.head) == m.head
  {
    HeadIsNotNull(w, size, w.right.At(m.head), m.head, m.right, bin);
    HeadIsNotNull(w, size, w.left.At(m.head), m.head, m.left, bin);
  }

  /** Words of a chunk that has to be unlinked. */
  lemma UnlinkView(w: Words, size: Mem, root: nat, par: nat, tree: Tree, bin: nat, x: nat)
    requires Repr(w, size, root, par, tree, bin) && Distinct(tree) && 0 < Count(tree, x) && par != 0
    ensures var n := Find(tree, x);
      && Distinct(n) && Repr(w, size, n.head, w.parent.At(n.head), n, bin)
      && (w.bk.At(x) == x <==> n.others == [])
      && (w.parent.At(x) != 0 <==> n.head == x)
      && w.bin.At(x) == bin
  {
    var n := Find(tree, x);
    ReprFind(w, size, root, par, tree, bin, x);
    FindDistinct(tree, x);
    MemberLinks(w, n, x);
    KeptIsCounted(n);
    if n.head == x && x != root {
      ParentLink(w, size, root, par, tree, bin, x);
      NotNull(w, size, root, par, tree, bin, w.parent.At(x));
    }
    HeadIsNotNull(w, size, root, par, tree, bin);
  }

  lemma {:induction false} NotNull(w: Words, size: Mem, a: nat, par: nat, t: Tree, bin: nat, x: nat)
    requires Repr(w, size, a, par, t, bin) && 0 < Count(t, x)
    ensures x != 0
    decreases t
  {
    if !t.Keeps(x) {
      if 0 < Count(t.left, x) {
        NotNull(w, size, w.left.At(a), a, t.left, bin, x);
      } else {
        NotNull(w, size, w.right.At(a), a, t.right, bin, x);
      }
    }
  }

  /** Closing the ring over x: all there is to do for a chunk behind a node, the first phase for a node. */
  lemma RingClosed(w: Words, size: Mem, root: nat, par: nat, tree: Tree, bin: nat, x: nat)
    requires Repr(w, size, root, par, tree, bin) && Distinct(tree) && 0 < Count(tree, x)
    requires Find(tree, x).others != []
    ensures if Find(tree, x).head == x then
        Prepared(w, Unringed(w, x), size, Find(tree, x), bin) && w.bk.At(x) == Drop(Find(tree, x), x).head
      else
        && Repr(Unringed(w, x), size, root, par, Remove(tree, x), bin)
        && forall y :: Count(tree, y) == 0 ==> Same(w, Unringed(w, x), y)
  {
    var n := Find(tree, x);
    if n.head == x {
      ReprFind(w, size, root, par, tree, bin, x);
      FindDistinct(tree, x);
      PreparedByRing(w, size, w.parent.At(x), n, bin);
    } else {
      UnlinkedMember(w, size, root, par, tree, bin, x);
    }
  }
}

/** The link words of free chunks in memory: rings through fd and bk, trees through child and parent.
    A tree of the value level is what memory holds at an address; writes outside a tree leave it alone,
    and writing the one link above a subtree exchanges that subtree. */
module Links {
  import opened SizeTrie

  /** One word per address; words never written read as zero. */
  datatype Mem = Mem(words: map<nat, nat>) {
    function At(a: nat): nat {
      if a in words then words[a] else 0
    }

    function Set(a: nat, v: nat): Mem {
      Mem(words[a := v])
    }
  }

  /** The fields of a free chunk's header, each as a memory indexed by chunk address. */
  datatype Words = Words(fd: Mem, bk: Mem, left: Mem, right: Mem, parent: Mem, bin: Mem)

  /** The address after position i, the first one after the last. */
  function Following(ring: seq<nat>, i: nat): nat
    requires i < |ring|
  {
    if i + 1 < |ring| then ring[i + 1] else ring[0]
  }

  ghost predicate Joined(fd: Mem, bk: Mem, ring: seq<nat>, i: nat)
    requires i < |ring|
  {
    fd.At(ring[i]) == Following(ring, i) && bk.At(Following(ring, i)) == ring[i]
  }

  /** fd leads around the ring in order, bk the other way. */
  ghost predicate Circular(fd: Mem, bk: Mem, ring: seq<nat>) {
    forall i :: 0 <= i < |ring| ==> Joined(fd, bk, ring, i)
  }

  ghost predicate NoRepeats(xs: seq<nat>) {
    forall i, j :: 0 <= i < j < |xs| ==> xs[i] != xs[j]
  }

  /** Linking x in behind the head of a ring. */
  lemma RingInsert(fd: Mem, bk: Mem, head: nat, others: seq<nat>, x: nat)
    requires Circular(fd, bk, [head] + others) && NoRepeats([head] + others) && x !in [head] + others
    ensures var f := fd.At(head);
      Circular(fd.Set(head, x).Set(x, f), bk.Set(f, x).Set(x, head), [head] + ([x] + others))
  {
    var ring := [head] + others;
    var ring' := [head] + ([x] + others);
    var f := fd.At(head);
    var fd', bk' := fd.Set(head, x).Set(x, f), bk.Set(f, x).Set(x, head);
    assert Joined(fd, bk, ring, 0);
    forall i | 0 <= i < |ring'|
      ensures Joined(fd', bk', ring', i)
    {
      if 2 <= i {
        assert Joined(fd, bk, ring, i - 1);
        assert ring'[i] == ring[i - 1] && Following(ring', i) == Following(ring, i - 1);
      }
    }
  }

  /** Unlinking position i of a ring of at least two. */
  lemma RingRemove(fd: Mem, bk: Mem, ring: seq<nat>, i: nat)
    requires Circular(fd, bk, ring) && NoRepeats(ring) && i < |ring| && 1 < |ring|
    ensures var f, r := fd.At(ring[i]), bk.At(ring[i]);
      Circular(fd.Set(r, f), bk.Set(f, r), ring[..i] + ring[i + 1..])
  {
    var f, r := fd.At(ring[i]), bk.At(ring[i]);
    var ring' := ring[..i] + ring[i + 1..];
    var before := if i == 0 then |ring| - 1 else i - 1;
    assert Joined(fd, bk, ring, i) && Joined(fd, bk, ring, before);
    forall j | 0 <= j < |ring'|
      ensures Joined(fd.Set(r, f), bk.Set(f, r), ring', j)
    {
      var k := if j < i then j else j + 1;
      assert Joined(fd, bk, ring, k);
      assert ring'[j] == ring[k];
      if k != before {
        assert Following(ring', j) == Following(ring, k);
      }
    }
  }

  /** A ring may be read from any of its chunks on. */
  lemma RingRotate(fd: Mem, bk: Mem, xs: seq<nat>, ys: seq<nat>)
    requires Circular(fd, bk, xs + ys)
    ensures Circular(fd, bk, ys + xs)
  {
    forall i | 0 <= i < |ys + xs|
      ensures Joined(fd, bk, ys + xs, i)
    {
      assert Joined(fd, bk, xs + ys, if i < |ys| then |xs| + i else i - |ys|);
    }
  }

  /** The words of node t's own ring. */
  ghost predicate NodeWords(w: Words, size: Mem, par: nat, t: Tree, bin: nat)
    requires t.Node?
  {
    && Circular(w.fd, w.bk, t.Ring())
    && w.parent.At(t.head) == par
    && (forall x :: x in t.others ==> w.parent.At(x) == 0 && w.left.At(x) == 0 && w.right.At(x) == 0)
    && (forall x :: t.Keeps(x) ==> x != 0 && size.At(x) == t.size && w.bin.At(x) == bin)
  }

  /** Memory holds tree t of the given bin at address a, below the node or bin at address par. */
  ghost predicate Repr(w: Words, size: Mem, a: nat, par: nat, t: Tree, bin: nat)
    decreases t
  {
    if t.Nil? then a == 0
    else
      && a == t.head
      && NodeWords(w, size, par, t, bin)
      && Repr(w, size, w.left.At(a), a, t.left, bin)
      && Repr(w, size, w.right.At(a), a, t.right, bin)
  }

  /** Chunk y has the same words, children aside. */
  ghost predicate RingSame(w: Words, w': Words, y: nat) {
    && w'.fd.At(y) == w.fd.At(y) && w'.bk.At(y) == w.bk.At(y)
    && w'.parent.At(y) == w.parent.At(y) && w'.bin.At(y) == w.bin.At(y)
  }

  ghost predicate Same(w: Words, w': Words, y: nat) {
    RingSame(w, w', y) && w'.left.At(y) == w.left.At(y) && w'.right.At(y) == w.right.At(y)
  }

  /** Chunk y has the same words, except that child links to h (other than null) may differ. */
  ghost predicate Kept(w: Words, w': Words, size: Mem, size': Mem, y: nat, h: nat) {
    && RingSame(w, w', y) && size'.At(y) == size.At(y)
    && (h == 0 || w.left.At(y) != h ==> w'.left.At(y) == w.left.At(y))
    && (h == 0 || w.right.At(y) != h ==> w'.right.At(y) == w.right.At(y))
  }

  lemma NodeKept(w: Words, w': Words, size: Mem, size': Mem, par: nat, t: Tree, bin: nat)
    requires t.Node? && NodeWords(w, size, par, t, bin)
    requires forall y :: t.Keeps(y) ==> RingSame(w, w', y) && size'.At(y) == size.At(y)
    requires forall y :: y in t.others ==> w'.left.At(y) == 0 && w'.right.At(y) == 0
    ensures NodeWords(w', size', par, t, bin)
  {
    var ring := t.Ring();
    assert t.Keeps(t.head);
    forall i | 0 <= i < |ring|
      ensures Joined(w'.fd, w'.bk, ring, i)
    {
      assert Joined(w.fd, w.bk, ring, i);
      assert t.Keeps(ring[i]) && t.Keeps(Following(ring, i));
    }
    assert forall x :: x in t.others ==> t.Keeps(x);
  }

  /** A tree is unaffected by writes elsewhere. */
  lemma {:induction false} ReprKept(w: Words, w': Words, size: Mem, size': Mem,
                                    a: nat, par: nat, t: Tree, bin: nat, h: nat)
    requires Repr(w, size, a, par, t, bin)
    requires forall y :: 0 < Count(t, y) ==> Kept(w, w', size, size', y, h)
    requires h == 0 || Count(t, h) == 0
    ensures Repr(w', size', a, par, t, bin)
    decreases t
  {
    if t.Node? {
      assert forall y :: t.Keeps(y) ==> 0 < Count(t, y);
      assert forall y :: y in t.others ==> t.Keeps(y);
      NodeKept(w, w', size, size', par, t, bin);
      HeadCounted(t.left);
      HeadCounted(t.right);
      ReprKept(w, w', size, size', w.left.At(a), a, t.left, bin, h);
      ReprKept(w, w', size, size', w.right.At(a), a, t.right, bin, h);
      assert 0 < Count(t, a);
    }
  }

  lemma HeadCounted(t: Tree)
    ensures t.Node? ==> 0 < Count(t, t.head)
  {}

  /** A tree none of whose chunks is written. */
  lemma ReprSame(w: Words, w': Words, size: Mem, a: nat, par: nat, t: Tree, bin: nat)
    requires Repr(w, size, a, par, t, bin)
    requires forall y :: 0 < Count(t, y) ==> Same(w, w', y)
    ensures Repr(w', size, a, par, t, bin)
  {
    ReprKept(w, w', size, size, a, par, t, bin, 0);
  }

  /** Writing the parent link of the root only moves the tree below another node. */
  lemma ReprMoved(w: Words, w': Words, size: Mem, a: nat, par: nat, par': nat, t: Tree, bin: nat)
    requires Repr(w, size, a, par, t, bin) && Distinct(t)
    requires forall y :: 0 < Count(t, y) && y != a ==> Same(w, w', y)
    requires Same(w, w'.(parent := w.parent), a)
    requires t.Node? ==> w'.parent.At(a) == par'
    ensures Repr(w', size, a, par', t, bin)
  {
    if t.Node? {
      assert 0 < Count(t, a) && Count(t, a) <= 1;
      ReprSame(w, w', size, w.left.At(a), a, t.left, bin);
      ReprSame(w, w', size, w.right.At(a), a, t.right, bin);
      assert t.Here(a) <= 1 && forall y :: y in t.others ==> t.Keeps(y) && y != a && 0 < Count(t, y);
      assert forall y :: t.Keeps(y) && y != a ==> Same(w, w', y);
      NodeMoved(w, w', size, par, par', t, bin);
    }
  }

  lemma NodeMoved(w: Words, w': Words, size: Mem, par: nat, par': nat, t: Tree, bin: nat)
    requires t.Node? && NodeWords(w, size, par, t, bin) && t.head !in t.others
    requires forall y :: t.Keeps(y) ==> RingSame(w, w'.(parent := w.parent), y)
    requires forall y :: y in t.others ==> w'.left.At(y) == 0 && w'.right.At(y) == 0 && w'.parent.At(y) == 0
    requires w'.parent.At(t.head) == par'
    ensures NodeWords(w', size, par', t, bin)
  {
    NodeKept(w, w'.(parent := w.parent), size, size, par, t, bin);
  }

  /** Exchanging the subtree of chunk x for another tree, whose root b takes the place of the old
      root in the child link above it. */
  lemma {:induction false} ReprPlug(w: Words, w': Words, size: Mem, size': Mem, a: nat, par: nat, t: Tree, bin: nat,
                                    x: nat, b: nat, c: Tree)
    requires Repr(w, size, a, par, t, bin) && Distinct(t) && 0 < Count(t, x)
    requires Repr(w', size', b, w.parent.At(Find(t, x).head), c, bin)
    requires forall y :: 0 < Count(t, y) && Count(Find(t, x), y) == 0 ==>
      && Kept(w, w', size, size', y, Find(t, x).head)
      && (w.left.At(y) == Find(t, x).head ==> w'.left.At(y) == b)
      && (w.right.At(y) == Find(t, x).head ==> w'.right.At(y) == b)
    ensures Repr(w', size', if t.Keeps(x) then b else a, par, Replace(t, x, c), bin)
    decreases t
  {
    if !t.Keeps(x) {
      var onLeft := 0 < Count(t.left, x);
      PlugAbove(w, w', size, size', a, par, t, bin, x, onLeft);
      if onLeft {
        ReprPlug(w, w', size, size', w.left.At(a), a, t.left, bin, x, b, c);
      } else {
        ReprPlug(w, w', size, size', w.right.At(a), a, t.right, bin, x, b, c);
      }
      NodeRingOnly(w', size', par, t, Replace(t, x, c), bin);
    }
  }

  lemma NodeRingOnly(w: Words, size: Mem, par: nat, t: Tree, t': Tree, bin: nat)
    requires t.Node? && t'.Node? && NodeWords(w, size, par, t, bin)
    requires t'.head == t.head && t'.others == t.others && t'.size == t.size
    ensures NodeWords(w, size, par, t', bin)
  {
    assert t.Ring() == t'.Ring();
    assert forall x :: t'.Keeps(x) ==> t.Keeps(x);
  }

  /** What is kept at a node, or on its other side, is not in the part with x. */
  lemma OutsideFound(t: Tree, x: nat, y: nat)
    requires Distinct(t) && 0 < Count(t, x) && !t.Keeps(x)
    requires t.Keeps(y) || 0 < Count(if 0 < Count(t.left, x) then t.right else t.left, y)
    ensures 0 < Count(t, y) && Count(Find(t, x), y) == 0
  {
    FindCount(if 0 < Count(t.left, x) then t.left else t.right, x, y);
    assert Count(t, y) <= 1;
  }

  /** What does not change at a node above the exchanged subtree, and on its other side. */
  lemma PlugAbove(w: Words, w': Words, size: Mem, size': Mem, a: nat, par: nat, t: Tree, bin: nat,
                  x: nat, onLeft: bool)
    requires Repr(w, size, a, par, t, bin) && Distinct(t) && 0 < Count(t, x) && !t.Keeps(x)
    requires onLeft == (0 < Count(t.left, x))
    requires forall y :: 0 < Count(t, y) && Count(Find(t, x), y) == 0 ==>
      Kept(w, w', size, size', y, Find(t, x).head)
    ensures Distinct(t.left) && Distinct(t.right) && Count(Find(t, x), a) == 0
    ensures NodeWords(w', size', par, t, bin)
    ensures var side, h := if onLeft then t.left else t.right, Find(t, x).head;
      && side.Node? && (side.Keeps(x) <==> side.head == h)
      && (if onLeft then Repr(w', size', w.right.At(a), a, t.right, bin) && w'.right.At(a) == w.right.At(a)
          else Repr(w', size', w.left.At(a), a, t.left, bin) && w'.left.At(a) == w.left.At(a))
      && (side.head != h ==> if onLeft then w'.left.At(a) == w.left.At(a) else w'.right.At(a) == w.right.At(a))
  {
    var h, side, other := Find(t, x).head, if onLeft then t.left else t.right, if onLeft then t.right else t.left;
    DistinctParts(t);
    OutsideFound(t, x, a);
    KeptOutside(w, w', size, size', t, x);
    FoundApart(t, x);
    assert forall y :: y in t.others ==> t.Keeps(y);
    NodeKept(w, w', size, size', par, t, bin);
    ReprKept(w, w', size, size', if onLeft then w.right.At(a) else w.left.At(a), a, other, bin, h);
    HeadOfPart(side, x);
  }

  lemma FoundApart(t: Tree, x: nat)
    requires Distinct(t) && 0 < Count(t, x) && !t.Keeps(x)
    ensures Count(if 0 < Count(t.left, x) then t.right else t.left, Find(t, x).head) == 0
  {
    HeadCounted(Find(t, x));
    FindCount(if 0 < Count(t.left, x) then t.left else t.right, x, Find(t, x).head);
    assert Count(t, Find(t, x).head) <= 1;
  }

  lemma KeptOutside(w: Words, w': Words, size: Mem, size': Mem, t: Tree, x: nat)
    requires Distinct(t) && 0 < Count(t, x) && !t.Keeps(x)
    requires forall y :: 0 < Count(t, y) && Count(Find(t, x), y) == 0 ==> Kept(w, w', size, size', y, Find(t, x).head)
    ensures forall y :: t.Keeps(y) || 0 < Count(if 0 < Count(t.left, x) then t.right else t.left, y) ==>
      Kept(w, w', size, size', y, Find(t, x).head)
  {
    forall y | t.Keeps(y) || 0 < Count(if 0 < Count(t.left, x) then t.right else t.left, y)
      ensures Kept(w, w', size, size', y, Find(t, x).head)
    {
      OutsideFound(t, x, y);
    }
  }

  lemma HeadOfPart(t: Tree, x: nat)
    requires Distinct(t) && 0 < Count(t, x)
    ensures Find(t, x).head == t.head <==> t.Keeps(x)
  {
    if !t.Keeps(x) {
      var part := if 0 < Count(t.left, x) then t.left else t.right;
      FindCount(part, x, Find(t, x).head);
      assert Count(t, t.head) <= 1;
    }
  }
}

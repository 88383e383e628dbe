/** The bitwise tries of free chunks as values: one node per size; chunks of a size that already
    has a node hang off it. */
module SizeTrie {
  import opened BinIndex

  /** `head` is the chunk in the tree, `others` the rest of its ring in fd order. */
  datatype Tree =
    | Nil
    | Node(size: nat, head: nat, others: seq<nat>, left: Tree, right: Tree)
  {
    /** The chunks of this node's size. */
    function Ring(): seq<nat>
      requires Node?
    {
      [head] + others
    }

    predicate Keeps(x: nat) {
      Node? && (x == head || x in others)
    }

    /** How often x occurs among the chunks of this node's size. */
    ghost function Here(x: nat): nat
      requires Node?
    {
      multiset(others)[x] + if x == head then 1 else 0
    }
  }

  /** The tree has a node for size q. */
  ghost predicate Has(t: Tree, q: nat) {
    t.Node? && (t.size == q || Has(t.left, q) || Has(t.right, q))
  }

  /** How often chunk x occurs in the tree, in nodes and in rings. */
  ghost function Count(t: Tree, x: nat): nat {
    if t.Nil? then 0 else t.Here(x) + Count(t.left, x) + Count(t.right, x)
  }

  ghost predicate Distinct(t: Tree) {
    forall x :: Count(t, x) <= 1
  }

  /** The trie rule for a subtree that covers sizes low .. low + 2^bits: the two children cover the
      two halves, and no size has two nodes. */
  ghost predicate Trie(t: Tree, low: nat, bits: nat)
    decreases t
  {
    t.Node? ==>
      && low <= t.size < low + Pow2(bits)
      && !Has(t.left, t.size) && !Has(t.right, t.size)
      && (if bits == 0 then t.left.Nil? && t.right.Nil?
          else Trie(t.left, low, bits - 1) && Trie(t.right, low + Pow2(bits - 1), bits - 1))
  }

  lemma {:induction false} SizeInRange(t: Tree, low: nat, bits: nat, q: nat)
    requires Trie(t, low, bits)
    ensures Has(t, q) ==> low <= q < low + Pow2(bits)
    decreases t
  {
    if t.Node? && bits != 0 {
      SizeInRange(t.left, low, bits - 1, q);
      SizeInRange(t.right, low + Pow2(bits - 1), bits - 1, q);
    } else if t.Node? {
      assert !Has(t.left, q) && !Has(t.right, q);
    }
  }

  function Max(a: nat, b: nat): nat {
    if a < b then b else a
  }

  function Height(t: Tree): nat {
    if t.Nil? then 0 else 1 + Max(Height(t.left), Height(t.right))
  }

  /** Where a walk down from the root comes to, turning left or right. */
  ghost function Walked(t: Tree, lefts: seq<bool>): Tree {
    if t.Nil? || lefts == [] then t else Walked(if lefts[0] then t.left else t.right, lefts[1..])
  }

  /** No walk goes further down than the height. */
  lemma {:induction false} WalkIsShort(t: Tree, lefts: seq<bool>)
    requires Walked(t, lefts).Node?
    ensures |lefts| < Height(t)
  {
    if t.Node? && lefts != [] {
      WalkIsShort(if lefts[0] then t.left else t.right, lefts[1..]);
    }
  }

  ghost predicate Aligned(t: Tree) {
    t.Node? ==> t.size % 8 == 0 && Aligned(t.left) && Aligned(t.right)
  }

  /** A path has at most one node per undetermined bit that can tell two aligned sizes apart. */
  lemma {:induction false} HeightBound(t: Tree, low: nat, bits: nat)
    requires Trie(t, low, bits) && 3 <= bits && low % 8 == 0 && Aligned(t)
    ensures Height(t) <= bits - 2
    decreases t
  {
    if t.Node? {
      if bits == 3 {
        OneAlignedSize(t, low);
      } else {
        Pow2Multiple(bits - 1);
        HeightBound(t.left, low, bits - 1);
        HeightBound(t.right, low + Pow2(bits - 1), bits - 1);
      }
    }
  }

  lemma OneAlignedSize(t: Tree, low: nat)
    requires t.Node? && Trie(t, low, 3) && low % 8 == 0 && Aligned(t)
    ensures t.left.Nil? && t.right.Nil?
  {
    assert Pow2(2) == 4 && Pow2(3) == 8;
    HasOwnSize(t.left);
    HasOwnSize(t.right);
  }

  lemma HasOwnSize(t: Tree)
    ensures t.Node? ==> Has(t, t.size)
  {}

  lemma {:induction false} Pow2Multiple(n: nat)
    requires 3 <= n
    ensures Pow2(n) % 8 == 0
  {
    if n == 3 {
      assert Pow2(3) == 8;
    } else {
      Pow2Multiple(n - 1);
    }
  }

  /** The lower bound of the child that covers size s. */
  function Half(s: nat, low: nat, bits: nat): nat
    requires 0 < bits
  {
    if s < low + Pow2(bits - 1) then low else low + Pow2(bits - 1)
  }

  function Child(t: Tree, s: nat, low: nat, bits: nat): Tree
    requires t.Node? && 0 < bits
  {
    if s < low + Pow2(bits - 1) then t.left else t.right
  }

  function WithChild(t: Tree, s: nat, low: nat, bits: nat, c: Tree): Tree
    requires t.Node? && 0 < bits
  {
    if s < low + Pow2(bits - 1) then t.(left := c) else t.(right := c)
  }

  /** Insertion: down the trie to the node of this size, or to the place for one. A chunk of a
      size that is present joins the ring right behind the node. */
  function Insert(t: Tree, low: nat, bits: nat, s: nat, x: nat): Tree
    decreases t
  {
    if t.Nil? then Node(s, x, [], Nil, Nil)
    else if t.size == s || bits == 0 then t.(others := [x] + t.others)
    else WithChild(t, s, low, bits, Insert(Child(t, s, low, bits), Half(s, low, bits), bits - 1, s, x))
  }

  lemma {:induction false} InsertSizes(t: Tree, low: nat, bits: nat, s: nat, x: nat, q: nat)
    requires Trie(t, low, bits) && low <= s < low + Pow2(bits)
    ensures Has(Insert(t, low, bits, s, x), q) <==> Has(t, q) || q == s
    decreases t
  {
    if t.Node? && t.size != s && bits != 0 {
      InsertSizes(Child(t, s, low, bits), Half(s, low, bits), bits - 1, s, x, q);
    }
  }

  lemma {:induction false} InsertIsTrie(t: Tree, low: nat, bits: nat, s: nat, x: nat)
    requires Trie(t, low, bits) && low <= s < low + Pow2(bits)
    ensures Trie(Insert(t, low, bits, s, x), low, bits)
    decreases t
  {
    if t.Node? && t.size != s && bits != 0 {
      InsertIsTrie(Child(t, s, low, bits), Half(s, low, bits), bits - 1, s, x);
      InsertSizes(Child(t, s, low, bits), Half(s, low, bits), bits - 1, s, x, t.size);
    }
  }

  lemma {:induction false} InsertCount(t: Tree, low: nat, bits: nat, s: nat, x: nat, y: nat)
    ensures Count(Insert(t, low, bits, s, x), y) == Count(t, y) + if x == y then 1 else 0
    decreases t
  {
    if t.Node? && t.size != s && bits != 0 {
      InsertCount(Child(t, s, low, bits), Half(s, low, bits), bits - 1, s, x, y);
    }
  }

  /** The rightmost leaf of a tree: right where there is a right child, else left. */
  function RightmostLeaf(t: Tree): Tree
    requires t.Node?
    ensures RightmostLeaf(t).Node? && RightmostLeaf(t).left.Nil? && RightmostLeaf(t).right.Nil?
  {
    if t.right.Node? then RightmostLeaf(t.right)
    else if t.left.Node? then RightmostLeaf(t.left)
    else t
  }

  function WithoutRightmost(t: Tree): Tree
    requires t.Node?
  {
    if t.right.Node? then t.(right := WithoutRightmost(t.right))
    else if t.left.Node? then t.(left := WithoutRightmost(t.left))
    else Nil
  }

  lemma {:induction false} RightmostSizes(t: Tree, q: nat)
    requires t.Node?
    ensures Has(t, q) <==> Has(WithoutRightmost(t), q) || q == RightmostLeaf(t).size
  {
    if t.right.Node? {
      RightmostSizes(t.right, q);
    } else if t.left.Node? {
      RightmostSizes(t.left, q);
    }
  }

  lemma {:induction false} RightmostIsTrie(t: Tree, low: nat, bits: nat)
    requires Trie(t, low, bits) && t.Node?
    ensures Trie(WithoutRightmost(t), low, bits)
    ensures !Has(WithoutRightmost(t), RightmostLeaf(t).size)
    decreases t
  {
    if t.right.Node? {
      RightmostIsTrie(t.right, low + Pow2(bits - 1), bits - 1);
      RightmostSizes(t.right, t.size);
      RightmostSizes(t.right, RightmostLeaf(t).size);
      SizeInRange(t.right, low + Pow2(bits - 1), bits - 1, RightmostLeaf(t).size);
      SizeInRange(t.left, low, bits - 1, RightmostLeaf(t).size);
    } else if t.left.Node? {
      RightmostIsTrie(t.left, low, bits - 1);
      RightmostSizes(t.left, t.size);
      RightmostSizes(t.left, RightmostLeaf(t).size);
    }
  }

  lemma {:induction false} RightmostCount(t: Tree, y: nat)
    requires t.Node?
    ensures Count(t, y) == Count(WithoutRightmost(t), y) + RightmostLeaf(t).Here(y)
  {
    if t.right.Node? {
      RightmostCount(t.right, y);
    } else if t.left.Node? {
      RightmostCount(t.left, y);
    }
  }

  /** Takes chunk x out of the ring of node t. The last chunk of a ring takes the place of a head;
      the last chunk of its size leaves its place to the rightmost leaf below, if there is one. */
  function Drop(t: Tree, x: nat): Tree
    requires t.Keeps(x)
  {
    if t.others != [] then
      if x == t.head then t.(head := t.others[|t.others| - 1], others := t.others[..|t.others| - 1])
      else t.(others := Without(t.others, x))
    else if t.right.Node? then
      var leaf := RightmostLeaf(t.right);
      Node(leaf.size, leaf.head, leaf.others, t.left, WithoutRightmost(t.right))
    else if t.left.Node? then
      var leaf := RightmostLeaf(t.left);
      Node(leaf.size, leaf.head, leaf.others, WithoutRightmost(t.left), Nil)
    else Nil
  }

  function Without(xs: seq<nat>, x: nat): seq<nat> {
    if xs == [] then [] else if xs[0] == x then xs[1..] else [xs[0]] + Without(xs[1..], x)
  }

  /** Removal of chunk x, wherever it is. */
  ghost function Remove(t: Tree, x: nat): Tree {
    if t.Nil? then Nil
    else if t.Keeps(x) then Drop(t, x)
    else if 0 < Count(t.left, x) then t.(left := Remove(t.left, x))
    else t.(right := Remove(t.right, x))
  }

  lemma DropSizes(t: Tree, x: nat, q: nat)
    requires t.Keeps(x)
    ensures Has(Drop(t, x), q) ==> Has(t, q)
    ensures Has(t, q) ==> Has(Drop(t, x), q) || (q == t.size && t.others == [])
  {
    if t.others == [] {
      if t.right.Node? {
        RightmostSizes(t.right, q);
      } else if t.left.Node? {
        RightmostSizes(t.left, q);
      }
    }
  }

  lemma DropIsTrie(t: Tree, x: nat, low: nat, bits: nat)
    requires Trie(t, low, bits) && t.Keeps(x)
    ensures Trie(Drop(t, x), low, bits)
  {
    if t.others == [] && t.right.Node? {
      var leaf := RightmostLeaf(t.right);
      RightmostIsTrie(t.right, low + Pow2(bits - 1), bits - 1);
      RightmostSizes(t.right, leaf.size);
      SizeInRange(t.right, low + Pow2(bits - 1), bits - 1, leaf.size);
      SizeInRange(t.left, low, bits - 1, leaf.size);
    } else if t.others == [] && t.left.Node? {
      var leaf := RightmostLeaf(t.left);
      RightmostIsTrie(t.left, low, bits - 1);
      RightmostSizes(t.left, leaf.size);
      SizeInRange(t.left, low, bits - 1, leaf.size);
    }
  }

  lemma {:induction false} RemoveSizes(t: Tree, x: nat, q: nat)
    ensures Has(Remove(t, x), q) ==> Has(t, q)
  {
    if t.Node? {
      if t.Keeps(x) {
        DropSizes(t, x, q);
      } else {
        RemoveSizes(t.left, x, q);
        RemoveSizes(t.right, x, q);
      }
    }
  }

  /** Removal keeps the trie rule, also when an inner node gives way to a leaf from far below it. */
  lemma {:induction false} RemoveIsTrie(t: Tree, x: nat, low: nat, bits: nat)
    requires Trie(t, low, bits)
    ensures Trie(Remove(t, x), low, bits)
    decreases t
  {
    if t.Node? {
      if t.Keeps(x) {
        DropIsTrie(t, x, low, bits);
      } else if bits != 0 {
        RemoveIsTrie(t.left, x, low, bits - 1);
        RemoveIsTrie(t.right, x, low + Pow2(bits - 1), bits - 1);
        RemoveSizes(t.left, x, t.size);
        RemoveSizes(t.right, x, t.size);
      }
    }
  }

  lemma {:induction false} WithoutCount(xs: seq<nat>, x: nat, y: nat)
    requires x in xs
    ensures multiset(Without(xs, x))[y] == multiset(xs)[y] - if x == y then 1 else 0
  {
    assert xs == [xs[0]] + xs[1..];
    if xs[0] != x {
      WithoutCount(xs[1..], x, y);
    }
  }

  lemma DropCount(t: Tree, x: nat, y: nat)
    requires t.Keeps(x)
    ensures Count(Drop(t, x), y) == Count(t, y) - if x == y then 1 else 0
  {
    if t.others != [] {
      var n := |t.others| - 1;
      if x == t.head {
        assert t.others == t.others[..n] + [t.others[n]];
      } else {
        WithoutCount(t.others, x, y);
      }
    } else if t.right.Node? {
      RightmostCount(t.right, y);
    } else if t.left.Node? {
      RightmostCount(t.left, y);
    }
  }

  /** Removal takes out exactly one chunk. */
  lemma {:induction false} RemoveCount(t: Tree, x: nat, y: nat)
    requires 0 < Count(t, x)
    ensures Count(Remove(t, x), y) == Count(t, y) - if x == y then 1 else 0
  {
    if t.Keeps(x) {
      DropCount(t, x, y);
    } else if 0 < Count(t.left, x) {
      RemoveCount(t.left, x, y);
    } else {
      RemoveCount(t.right, x, y);
    }
  }

  /** The subtree whose root keeps chunk x. */
  ghost function Find(t: Tree, x: nat): Tree
    requires 0 < Count(t, x)
    ensures Find(t, x).Keeps(x)
  {
    if t.Keeps(x) then t else if 0 < Count(t.left, x) then Find(t.left, x) else Find(t.right, x)
  }

  /** The tree with that subtree exchanged for c. */
  ghost function Replace(t: Tree, x: nat, c: Tree): Tree
    requires 0 < Count(t, x)
  {
    if t.Keeps(x) then c
    else if 0 < Count(t.left, x) then t.(left := Replace(t.left, x, c))
    else t.(right := Replace(t.right, x, c))
  }

  lemma {:induction false} RemoveIsReplace(t: Tree, x: nat)
    requires 0 < Count(t, x)
    ensures Remove(t, x) == Replace(t, x, Drop(Find(t, x), x))
  {
    if !t.Keeps(x) {
      if 0 < Count(t.left, x) {
        RemoveIsReplace(t.left, x);
      } else {
        RemoveIsReplace(t.right, x);
      }
    }
  }

  lemma {:induction false} FindCount(t: Tree, x: nat, y: nat)
    requires 0 < Count(t, x)
    ensures Count(Find(t, x), y) <= Count(t, y)
  {
    if !t.Keeps(x) {
      if 0 < Count(t.left, x) {
        FindCount(t.left, x, y);
      } else {
        FindCount(t.right, x, y);
      }
    }
  }

  /** One step down: the child of a subtree is a subtree, and exchanging it exchanges it in its parent. */
  lemma {:induction false} FindChild(t: Tree, h: nat, onLeft: bool, e: Tree)
    requires Distinct(t) && 0 < Count(t, h) && Find(t, h).head == h
    requires var n := Find(t, h); if onLeft then n.left.Node? else n.right.Node?
    ensures var n := Find(t, h); var c := if onLeft then n.left else n.right;
      && 0 < Count(t, c.head) && Find(t, c.head) == c
      && Replace(t, c.head, e) == Replace(t, h, if onLeft then n.(left := e) else n.(right := e))
  {
    var n := Find(t, h);
    var c := if onLeft then n.left else n.right;
    assert Count(t, h) <= 1 && Count(t, c.head) <= 1;
    assert 0 < Count(c, c.head) && 0 < Count(n, c.head);
    FindCount(t, h, c.head);
    if !t.Keeps(h) {
      DistinctParts(t);
      if 0 < Count(t.left, h) {
        FindCount(t.left, h, c.head);
        FindChild(t.left, h, onLeft, e);
      } else {
        FindCount(t.right, h, c.head);
        FindChild(t.right, h, onLeft, e);
      }
    }
  }

  lemma DistinctParts(t: Tree)
    requires Distinct(t) && t.Node?
    ensures Distinct(t.left) && Distinct(t.right)
  {
    forall x
      ensures Count(t.left, x) <= 1 && Count(t.right, x) <= 1
    {
      assert Count(t, x) <= 1;
    }
  }

  lemma {:induction false} FindDistinct(t: Tree, x: nat)
    requires Distinct(t) && 0 < Count(t, x)
    ensures Distinct(Find(t, x))
  {
    forall y
      ensures Count(Find(t, x), y) <= 1
    {
      FindCount(t, x, y);
      assert Count(t, y) <= 1;
    }
  }

  /** The rightmost leaf is the subtree of its head, and taking it away is exchanging it for nothing. */
  lemma {:induction false} FindRightmost(t: Tree)
    requires Distinct(t) && t.Node?
    ensures var leaf := RightmostLeaf(t);
      && 0 < Count(t, leaf.head) && Find(t, leaf.head) == leaf
      && Replace(t, leaf.head, Nil) == WithoutRightmost(t)
  {
    var leaf := RightmostLeaf(t);
    if t.right.Node? || t.left.Node? {
      DistinctParts(t);
      FindRightmost(if t.right.Node? then t.right else t.left);
      assert Count(t, leaf.head) <= 1;
    }
  }
}

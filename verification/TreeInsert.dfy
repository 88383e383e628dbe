/** The walk that finds the place of a chunk in its tree bin, and what insertion makes of the bins:
    each level looks at one more bit of the size, from the sign bit of a shifted word. */
module TreeInsert {
  import opened BinIndex
  import opened BitWords
  import opened SizeTrie
  import opened Links
  import opened TreeWrites
  import opened Bins

  /** The walk for chunk x of size s has come to node t, the root of subtree n, which covers the
      sizes low .. low + 2^bits; word steers the rest of it. */
  ghost predicate Walking(tree: Tree, i: nat, s: nat, x: nat, t: nat, n: Tree, low: nat, bits: nat, word: nat)
    requires i < NTREEBINS
  {
    && Distinct(tree) && Trie(n, low, bits) && Steers(word, s, low, bits)
    && n.Node? && n.head == t && 0 < Count(tree, t) && Find(tree, t) == n
    && Replace(tree, t, Insert(n, low, bits, s, x)) == Insert(tree, BinLow(i), BinBits(i), s, x)
  }

  lemma WalkStarts(tree: Tree, s: nat, x: nat)
    requires MIN_LARGE_SIZE <= s < WORD && tree.Node? && Distinct(tree) && TreeIndex(s) < NTREEBINS
    requires Trie(tree, BinLow(TreeIndex(s)), BinBits(TreeIndex(s)))
    ensures var i := TreeIndex(s);
      Walking(tree, i, s, x, tree.head, tree, BinLow(i), BinBits(i), ShiftLeft(s, LeftShift(i)))
  {
    SteersFromRoot(s);
  }

  /** The child links of node t in memory. */
  ghost predicate ChildWords(w: Words, t: nat, n: Tree)
    requires n.Node?
  {
    && (if n.left.Nil? then w.left.At(t) == 0 else w.left.At(t) == n.left.head != 0)
    && (if n.right.Nil? then w.right.At(t) == 0 else w.right.At(t) == n.right.head != 0)
  }

  lemma WalkSeen(w: Words, size: Mem, root: nat, tree: Tree, i: nat, s: nat, x: nat, t: nat, n: Tree,
                 low: nat, bits: nat, word: nat)
    requires i < NTREEBINS && Walking(tree, i, s, x, t, n, low, bits, word)
    requires Repr(w, size, root, TreeBinAt(i), tree, i) && Count(tree, x) == 0
    ensures size.At(t) == n.size && t != x
    ensures ChildWords(w, t, n) && ChildWords(Cleared(w, x, i), t, n)
  {
    ReprFind(w, size, root, TreeBinAt(i), tree, i, t);
    assert n.Keeps(n.head);
    if n.left.Node? {
      assert n.left.Keeps(n.left.head);
    }
    if n.right.Node? {
      assert n.right.Keeps(n.right.head);
    }
  }

  /** The child on the side of s: the walk goes on there, or the chunk becomes a leaf there. */
  lemma WalkStep(w: Words, tree: Tree, i: nat, s: nat, x: nat, t: nat, n: Tree, low: nat, bits: nat, word: nat)
      returns (low': nat, bits': nat, word': nat)
    requires i < NTREEBINS && Walking(tree, i, s, x, t, n, low, bits, word) && n.size != s && ChildWords(w, t, n)
    ensures word' == (2 * word) % WORD
    ensures var onLeft := word / 0x8000_0000 == 0;
      var c, d := if onLeft then w.left.At(t) else w.right.At(t), if onLeft then n.left else n.right;
      if c != 0 then d.Node? && Walking(tree, i, s, x, c, d, low', bits', word')
      else d.Nil? && Replace(tree, t, if onLeft then n.(left := Node(s, x, [], Nil, Nil))
                                      else n.(right := Node(s, x, [], Nil, Nil)))
                     == Insert(tree, BinLow(i), BinBits(i), s, x)
  {
    low', bits', word' := Half(s, low, bits), bits - 1, (2 * word) % WORD;
    var onLeft := s < low + Pow2(bits - 1);
    var c := Child(n, s, low, bits);
    if c.Node? {
      FindChild(tree, t, onLeft, Insert(c, Half(s, low, bits), bits - 1, s, x));
    } else {
      assert Insert(c, Half(s, low, bits), bits - 1, s, x) == Node(s, x, [], Nil, Nil);
    }
  }

  /** The tree and the words after a leaf was attached below t. */
  lemma AttachedTree(w: Words, size: Mem, root: nat, tree: Tree, i: nat, s: nat, x: nat, t: nat, onLeft: bool)
    requires Repr(w, size, root, TreeBinAt(i), tree, i) && Distinct(tree) && Count(tree, x) == 0 && x != 0
    requires size.At(x) == s && 0 < Count(tree, t) && Find(tree, t).head == t
    requires var n := Find(tree, t); if onLeft then n.left.Nil? else n.right.Nil?
    ensures var n := Find(tree, t); var leaf := Node(s, x, [], Nil, Nil);
      var w' := Alone(ChildLink(Cleared(w, x, i), t, onLeft, x), x, t);
      && Repr(w', size, root, TreeBinAt(i),
              Replace(tree, t, if onLeft then n.(left := leaf) else n.(right := leaf)), i)
      && forall y :: Count(tree, y) == 0 && y != x ==> Same(w, w', y)
  {
    AttachWrites(w, t, onLeft, x, i);
    AttachRepr(w, Alone(ChildLink(Cleared(w, x, i), t, onLeft, x), x, t), size, root, TreeBinAt(i), tree, i, t, onLeft, x);
  }

  /** The tree and the words after a chunk joined the ring of t. */
  lemma JoinedTree(w: Words, size: Mem, root: nat, tree: Tree, i: nat, s: nat, x: nat, t: nat)
    requires Repr(w, size, root, TreeBinAt(i), tree, i) && Distinct(tree) && Count(tree, x) == 0 && x != 0
    requires size.At(x) == s && 0 < Count(tree, t) && Find(tree, t).head == t && Find(tree, t).size == s
    ensures var n := Find(tree, t);
      var w' := Joining(Cleared(w, x, i), t, x);
      && Repr(w', size, root, TreeBinAt(i), Replace(tree, t, n.(others := [x] + n.others)), i)
      && forall y :: Count(tree, y) == 0 && y != x ==> Same(w, w', y)
  {
    var n, w' := Find(tree, t), Joining(Cleared(w, x, i), t, x);
    ReprFind(w, size, root, TreeBinAt(i), tree, i, t);
    FindDistinct(tree, t);
    FindCount(tree, t, x);
    JoinWrites(w, t, x, i);
    JoinNode(w, w', size, w.parent.At(t), n, i, x);
    KeptIsCounted(n);
    forall y
      ensures n.Keeps(y) ==> 0 < Count(tree, y)
    {
      FindCount(tree, t, y);
    }
    PlugSame(w, w', size, root, TreeBinAt(i), tree, i, t, n.(others := [x] + n.others));
  }

  /** What insertion makes of the bin. */
  lemma InsertBin(w: Words, w': Words, size: Mem, root: nat, root': nat, treemap: nat, treemap': nat,
                  tree: Tree, s: nat, x: nat)
    requires MIN_LARGE_SIZE <= s < WORD && s % 8 == 0 && FIRST_CHUNK <= x && TreeIndex(s) < NTREEBINS
    requires TreeBinOk(w, size, root, treemap, tree, TreeIndex(s)) && Count(tree, x) == 0
    requires Bit(treemap', TreeIndex(s))
    requires var i := TreeIndex(s);
      Repr(w', size, root', TreeBinAt(i), Insert(tree, BinLow(i), BinBits(i), s, x), i)
    ensures var i := TreeIndex(s);
      TreeBinOk(w', size, root', treemap', Insert(tree, BinLow(i), BinBits(i), s, x), i)
  {
    var i := TreeIndex(s);
    var tree' := Insert(tree, BinLow(i), BinBits(i), s, x);
    BinRange(s);
    InsertIsTrie(tree, BinLow(i), BinBits(i), s, x);
    InsertOfBin(tree, BinLow(i), BinBits(i), s, x);
    forall y
      ensures Count(tree', y) == Count(tree, y) + if x == y then 1 else 0
    {
      InsertCount(tree, BinLow(i), BinBits(i), s, x, y);
    }
  }

  lemma {:induction false} InsertOfBin(t: Tree, low: nat, bits: nat, s: nat, x: nat)
    requires MIN_LARGE_SIZE <= s < WORD && s % 8 == 0 && OfBin(t, TreeIndex(s))
    ensures OfBin(Insert(t, low, bits, s, x), TreeIndex(s))
    decreases t
  {
    if t.Node? && t.size != s && bits != 0 {
      InsertOfBin(Child(t, s, low, bits), Half(s, low, bits), bits - 1, s, x);
    }
  }

  /** Insertion into one tree bin leaves all bins in order. */
  lemma InsertedBins(b: BinState, b': BinState, size: Mem, s: nat, x: nat)
    requires BinsOk(b, size) && MIN_LARGE_SIZE <= s < WORD && s % 8 == 0 && FIRST_CHUNK <= x && size.At(x) == s
    requires !InTrees(b.trees, x) && !InLists(b.small, x) && TreeIndex(s) < NTREEBINS
    requires var i := TreeIndex(s);
      && ((b'.treemap == b.treemap && Bit(b.treemap, i)) || b'.treemap == Or(b.treemap, Idx2Bit(i)))
      && |b'.treebins| == NTREEBINS && b'.treebins == b.treebins[i := b'.treebins[i]]
      && (forall y :: Count(b.trees[i], y) == 0 && y != x ==> Same(b.w, b'.w, y))
      && Repr(b'.w, size, b'.treebins[i], TreeBinAt(i), Insert(b.trees[i], BinLow(i), BinBits(i), s, x), i)
      && b'.trees == b.trees[i := Insert(b.trees[i], BinLow(i), BinBits(i), s, x)]
    requires b'.smallmap == b.smallmap && b'.small == b.small
    ensures BinsOk(b', size)
  {
    var i := TreeIndex(s);
    MarkClear(b.treemap, i, i);
    assert TreeBinOk(b.w, size, b.treebins[i], b.treemap, b.trees[i], i);
    InsertBin(b.w, b'.w, size, b.treebins[i], b'.treebins[i], b.treemap, b'.treemap, b.trees[i], s, x);
    forall j | 0 <= j < NTREEBINS
      ensures j != i ==> TreeBinOk(b'.w, size, b'.treebins[j], b'.treemap, b.trees[j], j)
      ensures SmallBinOk(b'.w, size, b.smallmap, b.small[j], j)
    {
      MarkClear(b.treemap, i, j);
      TreeWriteFrame(b, b'.w, b'.treemap, size, i, x, j);
    }
  }
}

/** Which clusters make up a file: sixteen direct ones, then blocks of pointers in a chain of indirect
    clusters. Each cluster of the volume has one owner. */
module FsMap {
  import opened BinIndex
  import opened FsWords
  import opened FsBitmap
  import opened FsOwner

  const MAX_DIRECT_CLUSTER: nat := 15

  /** The fields of an inode that map the file. */
  datatype Inode = Inode(first: nat, size: nat, count: nat, dclusters: seq<nat>, head: nat)

  /** An open file: its inode, the file pointer and the cached position in the chain of indirect clusters. */
  datatype File = File(pf: nat, pointer: nat, icluster: nat, ifirst: nat)

  /** The data clusters and the indirect clusters of a file, in order. */
  datatype Chain = Chain(cs: seq<nat>, ics: seq<nat>)

  /** The first cluster index that indirect cluster j points to, with m pointers in each. */
  function Start(j: nat, m: nat): (s: nat)
    ensures MAX_DIRECT_CLUSTER < s
  {
    if j == 0 then MAX_DIRECT_CLUSTER + 1 else Start(j - 1, m) + m
  }

  lemma {:induction false} StartMono(i: nat, j: nat, m: nat)
    requires i <= j
    ensures Start(i, m) <= Start(j, m) && (i < j ==> Start(i, m) + m <= Start(j, m))
  {
    if i < j {
      StartMono(i, j - 1, m);
    }
  }

  /** A position in one block only. */
  lemma StartUnique(i: nat, j: nat, m: nat, k: nat)
    requires Start(i, m) <= k < Start(i, m) + m && Start(j, m) <= k < Start(j, m) + m
    ensures i == j
  {
    if i < j {
      StartMono(i, j, m);
    } else if j < i {
      StartMono(j, i, m);
    }
  }

  function WordIn(store: seq<seq<Byte>>, c: nat, k: nat): (w: nat)
    ensures w < WORD
  {
    if c < |store| && 4 * k + 4 <= |store[c]| then ReadWord(store[c], k) else 0
  }

  /** Indirect cluster j holds the pointers of its block and the link to the next one. */
  ghost predicate BlockOk(store: seq<seq<Byte>>, ch: Chain, m: nat, j: nat)
    requires j < |ch.ics|
  {
    && (forall off: nat :: off < m && Start(j, m) + off < |ch.cs| ==> WordIn(store, ch.ics[j], off) == ch.cs[Start(j, m) + off])
    && (j + 1 < |ch.ics| ==> WordIn(store, ch.ics[j], m) == ch.ics[j + 1])
  }

  /** There are as many indirect clusters as the data clusters beyond the direct ones need. */
  ghost predicate Sized(ch: Chain, m: nat) {
    && |ch.cs| <= Start(|ch.ics|, m)
    && (ch.ics != [] ==> Start(|ch.ics| - 1, m) < |ch.cs|)
  }

  /** The inode and the indirect clusters in the store describe the chain. */
  ghost predicate Describes(store: seq<seq<Byte>>, p: Inode, ch: Chain, m: nat) {
    && p.count == |ch.cs| && Sized(ch, m) && |p.dclusters| == MAX_DIRECT_CLUSTER
    && (ch.cs != [] ==> ch.cs[0] == p.first)
    && (forall k :: 1 <= k < |ch.cs| && k <= MAX_DIRECT_CLUSTER ==> p.dclusters[k - 1] == ch.cs[k])
    && (ch.ics != [] ==> p.head == ch.ics[0])
    && (forall j :: 0 <= j < |ch.ics| ==> BlockOk(store, ch, m, j))
  }

  /** On disk: cluster 0 is that of the inode, 1 to 15 are in the inode, and the others in the indirect clusters, m in
      each, which the word behind them chains up. */
  lemma ClusterOnDisk(store: seq<seq<Byte>>, p: Inode, ch: Chain, m: nat, k: nat)
    requires Describes(store, p, ch, m) && 0 < m && k < |ch.cs|
    ensures k == 0 ==> ch.cs[k] == p.first
    ensures 1 <= k <= 15 ==> |p.dclusters| == 15 && ch.cs[k] == p.dclusters[k - 1]
    ensures 16 <= k ==> var j := (k - 16) / m; j < |ch.ics| && ch.cs[k] == WordIn(store, ch.ics[j], (k - 16) % m)
    ensures forall j :: 0 <= j < |ch.ics| ==> ch.ics[j] == if j == 0 then p.head else WordIn(store, ch.ics[j - 1], m)
  {
    forall j | 0 < j < |ch.ics|
      ensures ch.ics[j] == WordIn(store, ch.ics[j - 1], m)
    {
      assert BlockOk(store, ch, m, j - 1);
    }
    if 16 <= k {
      PointerOnDisk(store, ch, m, k, (k - 16) / m, (k - 16) % m);
    }
  }

  lemma PointerOnDisk(store: seq<seq<Byte>>, ch: Chain, m: nat, k: nat, j: nat, off: nat)
    requires Sized(ch, m) && k < |ch.cs| && forall i :: 0 <= i < |ch.ics| ==> BlockOk(store, ch, m, i)
    requires k == 16 + j * m + off && off < m
    ensures j < |ch.ics| && ch.cs[k] == WordIn(store, ch.ics[j], off)
  {
    StartIs(j, m);
    if |ch.ics| <= j {
      StartMono(|ch.ics|, j, m);
    }
    assert BlockOk(store, ch, m, j);
  }

  lemma {:induction false} StartIs(j: nat, m: nat)
    ensures Start(j, m) == 16 + j * m
  {
    if j != 0 {
      StartIs(j - 1, m);
      assert j * m == (j - 1) * m + m;
    }
  }

  /** Writes that leave the indirect clusters alone leave the description. */
  lemma DescribesKept(store: seq<seq<Byte>>, store': seq<seq<Byte>>, p: Inode, ch: Chain, m: nat)
    requires Describes(store, p, ch, m) && |store'| == |store|
    requires forall j :: 0 <= j < |ch.ics| && ch.ics[j] < |store| ==> store'[ch.ics[j]] == store[ch.ics[j]]
    ensures Describes(store', p, ch, m)
  {
    forall j | 0 <= j < |ch.ics|
      ensures BlockOk(store', ch, m, j)
    {
      assert BlockOk(store, ch, m, j);
      assert SameWords(store, store', ch.ics[j], m + 1);
    }
  }

  /** The first k words of a cluster are unchanged. */
  ghost predicate SameWords(store: seq<seq<Byte>>, store': seq<seq<Byte>>, c: nat, k: nat) {
    forall i: nat :: i < k ==> WordIn(store', c, i) == WordIn(store, c, i)
  }

  /** A new cluster that a direct pointer takes. */
  lemma DescribesDirect(store: seq<seq<Byte>>, p: Inode, ch: Chain, m: nat, c: nat) returns (p': Inode, ch': Chain)
    requires Describes(store, p, ch, m) && 0 < p.count <= MAX_DIRECT_CLUSTER
    ensures p' == p.(count := p.count + 1, dclusters := p.dclusters[p.count - 1 := c])
    ensures ch' == Chain(ch.cs + [c], ch.ics) && Describes(store, p', ch', m)
  {
    p' := p.(count := p.count + 1, dclusters := p.dclusters[p.count - 1 := c]);
    ch' := Chain(ch.cs + [c], ch.ics);
  }

  /** A new cluster whose pointer goes into the last indirect cluster. */
  lemma DescribesRoom(store: seq<seq<Byte>>, p: Inode, ch: Chain, m: nat, c: nat, data: seq<Byte>)
      returns (store': seq<seq<Byte>>, p': Inode, ch': Chain)
    requires Describes(store, p, ch, m) && ch.ics != [] && |ch.cs| < Start(|ch.ics|, m)
    requires (forall i, j :: 0 <= i < j < |ch.ics| ==> ch.ics[i] != ch.ics[j]) && ch.ics[|ch.ics| - 1] < |store|
    requires var last := |ch.ics| - 1; var off := |ch.cs| - Start(last, m);
      |store[ch.ics[last]]| == 4 * m + 4 && c < WORD && off < m && data == WriteWord(store[ch.ics[last]], off, c)
    ensures store' == store[ch.ics[|ch.ics| - 1] := data]
    ensures p' == p.(count := p.count + 1) && ch' == Chain(ch.cs + [c], ch.ics) && Describes(store', p', ch', m)
  {
    var last := |ch.ics| - 1;
    store', p', ch' := store[ch.ics[last] := data], p.(count := p.count + 1), Chain(ch.cs + [c], ch.ics);
    forall j | 0 <= j < |ch.ics|
      ensures BlockOk(store', ch', m, j)
    {
      assert BlockOk(store, ch, m, j);
      if j == last {
        forall k: nat | k <= m
          ensures WordIn(store', ch.ics[last], k) == if k == |ch.cs| - Start(last, m) then c else WordIn(store, ch.ics[last], k)
        {
          ReadWritten(store[ch.ics[last]], |ch.cs| - Start(last, m), c, k);
        }
      } else {
        StartMono(j, last, m);
        assert SameWords(store, store', ch.ics[j], m + 1);
      }
    }
  }

  /** The indirect clusters are full: a new one is linked, and the pointer goes to its first word. */
  lemma DescribesLinked(store: seq<seq<Byte>>, p: Inode, ch: Chain, m: nat, ic: nat, c: nat, store': seq<seq<Byte>>)
      returns (p': Inode, ch': Chain)
    requires Describes(store, p, ch, m) && |ch.cs| == Start(|ch.ics|, m) && 0 < m
    requires |store'| == |store| && ic !in ch.ics
    requires WordIn(store', ic, 0) == c
    requires ch.ics != [] ==> WordIn(store', ch.ics[|ch.ics| - 1], m) == ic
    requires ch.ics != [] ==> SameWords(store, store', ch.ics[|ch.ics| - 1], m)
    requires forall j :: 0 <= j < |ch.ics| - 1 ==> SameWords(store, store', ch.ics[j], m + 1)
    ensures p' == p.(count := p.count + 1, head := if ch.ics == [] then ic else p.head)
    ensures ch' == Chain(ch.cs + [c], ch.ics + [ic]) && Describes(store', p', ch', m)
  {
    p' := p.(count := p.count + 1, head := if ch.ics == [] then ic else p.head);
    ch' := Chain(ch.cs + [c], ch.ics + [ic]);
    forall j | 0 <= j < |ch'.ics|
      ensures BlockOk(store', ch', m, j)
    {
      if j < |ch.ics| {
        assert BlockOk(store, ch, m, j) && SameWords(store, store', ch.ics[j], m);
        StartMono(j, |ch.ics|, m);
      }
    }
  }

  /** The chain of a file cut to n data clusters, with the indirect clusters these need. */
  ghost function Cut(ch: Chain, m: nat, n: nat): (ch': Chain)
    requires n <= |ch.cs| && Sized(ch, m)
  {
    Chain(ch.cs[..n], ch.ics[..Needed(|ch.ics|, m, n)])
  }

  /** How many of q indirect clusters start before position n. */
  ghost function Needed(q: nat, m: nat, n: nat): (r: nat)
    ensures r <= q && (r < q ==> n <= Start(r, m)) && (0 < r ==> Start(r - 1, m) < n)
  {
    if q == 0 then 0 else if Start(q - 1, m) < n then q else Needed(q - 1, m, n)
  }

  lemma DescribesCut(store: seq<seq<Byte>>, p: Inode, ch: Chain, m: nat, n: nat)
    requires Describes(store, p, ch, m) && n <= |ch.cs|
    ensures Describes(store, p.(count := n), Cut(ch, m, n), m)
  {
    var ch' := Cut(ch, m, n);
    forall j | 0 <= j < |ch'.ics|
      ensures BlockOk(store, ch', m, j)
    {
      assert BlockOk(store, ch, m, j);
    }
  }

  /** The last block is the one that reaches to the end of the file. */
  lemma ChainEnd(ch: Chain, m: nat, j: nat)
    requires Sized(ch, m) && j <= |ch.ics|
    ensures Start(j, m) < |ch.cs| <==> j < |ch.ics|
  {
    if j < |ch.ics| {
      StartMono(j, |ch.ics| - 1, m);
    }
  }

  ghost predicate OwnsData(owner: seq<Owner>, chains: seq<Chain>, f: nat, k: nat)
    requires f < |chains| && k < |chains[f].cs|
  {
    chains[f].cs[k] < |owner| && owner[chains[f].cs[k]] == Data(f, k)
  }

  ghost predicate OwnsIndirect(owner: seq<Owner>, chains: seq<Chain>, f: nat, j: nat)
    requires f < |chains| && j < |chains[f].ics|
  {
    chains[f].ics[j] < |owner| && owner[chains[f].ics[j]] == Indirect(f, j)
  }

  /** What a cluster is for, if it belongs to a file. */
  ghost predicate Belongs(owner: seq<Owner>, chains: seq<Chain>, c: nat)
    requires c < |owner|
  {
    match owner[c]
    case Data(f, k) => f < |chains| && k < |chains[f].cs| && chains[f].cs[k] == c
    case Indirect(f, j) => f < |chains| && j < |chains[f].ics| && chains[f].ics[j] == c
    case _ => true
  }

  /** The clusters of all files are disjoint, and no cluster claims a file that does not have it. */
  ghost predicate Owned(owner: seq<Owner>, chains: seq<Chain>) {
    && (forall f, k :: 0 <= f < |chains| && 0 <= k < |chains[f].cs| ==> OwnsData(owner, chains, f, k))
    && (forall f, j :: 0 <= f < |chains| && 0 <= j < |chains[f].ics| ==> OwnsIndirect(owner, chains, f, j))
    && (forall c :: 0 <= c < |owner| ==> Belongs(owner, chains, c))
  }

  /** The cached position of an open file is indirect cluster j. */
  ghost predicate CursorAt(h: File, ch: Chain, m: nat, j: nat) {
    j < |ch.ics| && h.ifirst == Start(j, m) && h.icluster == ch.ics[j]
  }

  ghost predicate CursorOk(h: File, ch: Chain, m: nat) {
    h.ifirst == 0 || exists j :: CursorAt(h, ch, m, j)
  }

  /** What the invariants of the files are about, at one time. */
  datatype Snapshot = Snapshot(store: seq<seq<Byte>>, inodes: seq<Inode>, chains: seq<Chain>, files: seq<File>, owner: seq<Owner>)

  /** Inodes, chains, open files and owners agree. */
  ghost predicate FilesOk(v: Snapshot, m: nat) {
    && |v.inodes| == |v.chains| && Owned(v.owner, v.chains)
    && (forall f :: 0 <= f < |v.chains| ==> Describes(v.store, v.inodes[f], v.chains[f], m))
    && (forall h :: 0 <= h < |v.files| ==> v.files[h].pf < |v.chains| && CursorOk(v.files[h], v.chains[v.files[h].pf], m))
  }

  /** A free cluster becomes the next data cluster of file f. */
  lemma OwnedData(owner: seq<Owner>, chains: seq<Chain>, f: nat, c: nat) returns (owner': seq<Owner>, chains': seq<Chain>)
    requires Owned(owner, chains) && f < |chains| && c < |owner| && owner[c] == Unowned
    ensures owner' == owner[c := Data(f, |chains[f].cs|)]
    ensures chains' == chains[f := Chain(chains[f].cs + [c], chains[f].ics)] && Owned(owner', chains')
  {
    owner' := owner[c := Data(f, |chains[f].cs|)];
    chains' := chains[f := Chain(chains[f].cs + [c], chains[f].ics)];
    forall g, k | 0 <= g < |chains'| && 0 <= k < |chains'[g].cs|
      ensures OwnsData(owner', chains', g, k)
    {
      if g != f || k < |chains[f].cs| {
        assert OwnsData(owner, chains, g, k);
      }
    }
    forall g, j | 0 <= g < |chains'| && 0 <= j < |chains'[g].ics|
      ensures OwnsIndirect(owner', chains', g, j)
    {
      assert OwnsIndirect(owner, chains, g, j);
    }
    forall d | 0 <= d < |owner'|
      ensures Belongs(owner', chains', d)
    {
      assert Belongs(owner, chains, d);
    }
  }

  /** A free cluster becomes the next indirect cluster of file f. */
  lemma OwnedIndirect(owner: seq<Owner>, chains: seq<Chain>, f: nat, c: nat) returns (owner': seq<Owner>, chains': seq<Chain>)
    requires Owned(owner, chains) && f < |chains| && c < |owner| && owner[c] == Unowned
    ensures owner' == owner[c := Indirect(f, |chains[f].ics|)]
    ensures chains' == chains[f := Chain(chains[f].cs, chains[f].ics + [c])] && Owned(owner', chains')
  {
    owner' := owner[c := Indirect(f, |chains[f].ics|)];
    chains' := chains[f := Chain(chains[f].cs, chains[f].ics + [c])];
    forall g, k | 0 <= g < |chains'| && 0 <= k < |chains'[g].cs|
      ensures OwnsData(owner', chains', g, k)
    {
      assert OwnsData(owner, chains, g, k);
    }
    forall g, j | 0 <= g < |chains'| && 0 <= j < |chains'[g].ics|
      ensures OwnsIndirect(owner', chains', g, j)
    {
      if g != f || j < |chains[f].ics| {
        assert OwnsIndirect(owner, chains, g, j);
      }
    }
    forall d | 0 <= d < |owner'|
      ensures Belongs(owner', chains', d)
    {
      assert Belongs(owner, chains, d);
    }
  }

  /** File f has a new inode and chain; the indirect clusters of the other files are untouched. */
  lemma FilesAfter(v: Snapshot, v': Snapshot, m: nat, f: nat, p': Inode, ch': Chain)
    requires FilesOk(v, m) && f < |v.chains| && |v'.store| == |v.store|
    requires v'.inodes == v.inodes[f := p'] && v'.chains == v.chains[f := ch']
    requires forall d: nat :: d < |v.owner| && d < |v.store| && v.owner[d].Indirect? && v.owner[d].file != f ==>
      v'.store[d] == v.store[d]
    requires Describes(v'.store, p', ch', m) && Owned(v'.owner, v'.chains) && |v'.files| == |v.files|
    requires forall h :: 0 <= h < |v.files| ==> v'.files[h].pf == v.files[h].pf
    requires forall h :: 0 <= h < |v.files| && v.files[h].pf != f ==> v'.files[h] == v.files[h]
    requires forall h :: 0 <= h < |v.files| && v.files[h].pf == f ==> CursorOk(v'.files[h], ch', m)
    ensures FilesOk(v', m)
  {
    forall g | 0 <= g < |v.chains| && g != f
      ensures Describes(v'.store, v.inodes[g], v.chains[g], m)
    {
      forall j | 0 <= j < |v.chains[g].ics| && v.chains[g].ics[j] < |v.store|
        ensures v'.store[v.chains[g].ics[j]] == v.store[v.chains[g].ics[j]]
      {
        assert OwnsIndirect(v.owner, v.chains, g, j);
      }
      DescribesKept(v.store, v'.store, v.inodes[g], v.chains[g], m);
    }
  }

  /** A longer chain keeps all cached positions. */
  lemma CursorKept(h: File, ch: Chain, ch': Chain, m: nat)
    requires CursorOk(h, ch, m) && ch.ics <= ch'.ics
    ensures CursorOk(h, ch', m)
  {
    if h.ifirst != 0 {
      var j :| CursorAt(h, ch, m, j);
      assert CursorAt(h, ch', m, j);
    }
  }

  /** The store is changed only in the bitmap and in indirect clusters of file f. */
  ghost predicate OnlyMaps(store: seq<seq<Byte>>, store': seq<seq<Byte>>, ly: Layout, owner': seq<Owner>, f: nat) {
    |store'| == |store| && forall d: nat :: d < |store| && store'[d] != store[d] ==>
      InMap(ly, d) || (d < |owner'| && owner'[d].Indirect? && owner'[d].file == f)
  }

  /** At most the cached position of open file h has moved. */
  ghost predicate SameButCursor(files: seq<File>, files': seq<File>, h: nat) {
    && h < |files| == |files'| && files'[h].pf == files[h].pf && files'[h].pointer == files[h].pointer
    && forall i :: 0 <= i < |files| && i != h ==> files'[i] == files[i]
  }

  lemma CursorChanged(v: Snapshot, files': seq<File>, m: nat, h: nat)
    requires FilesOk(v, m) && SameButCursor(v.files, files', h) && v.files[h].pf < |v.chains|
    requires CursorOk(files'[h], v.chains[v.files[h].pf], m)
    ensures FilesOk(v.(files := files'), m)
  {}

  /** Only the bitmap has been written. */
  ghost predicate OnlyBitmap(store: seq<seq<Byte>>, store': seq<seq<Byte>>, ly: Layout) {
    |store'| == |store| && forall d: nat :: d < |store| && !InMap(ly, d) ==> store'[d] == store[d]
  }

  /** That touches no indirect cluster. */
  lemma FilesElsewhere(v: Snapshot, store': seq<seq<Byte>>, ly: Layout, m: nat, f: nat)
    requires FilesOk(v, m) && ReservedOk(v.owner, ly) && OnlyBitmap(v.store, store', ly) && f < |v.chains|
    ensures forall d: nat :: d < |v.owner| && d < |v.store| && v.owner[d].Indirect? ==> store'[d] == v.store[d]
    ensures Describes(store', v.inodes[f], v.chains[f], m)
    ensures OnlyMaps(v.store, store', ly, v.owner, f)
  {
    var ch := v.chains[f];
    forall j | 0 <= j < |ch.ics| && ch.ics[j] < |v.store|
      ensures store'[ch.ics[j]] == v.store[ch.ics[j]]
    {
      assert OwnsIndirect(v.owner, v.chains, f, j);
    }
    DescribesKept(v.store, store', v.inodes[f], ch, m);
  }

  lemma LongerCursors(files: seq<File>, chains: seq<Chain>, f: nat, ch': Chain, m: nat)
    requires f < |chains| && chains[f].ics <= ch'.ics
    requires forall h :: 0 <= h < |files| && files[h].pf == f ==> CursorOk(files[h], chains[f], m)
    ensures forall h :: 0 <= h < |files| && files[h].pf == f ==> CursorOk(files[h], ch', m)
  {
    forall h | 0 <= h < |files| && files[h].pf == f
      ensures CursorOk(files[h], ch', m)
    {
      CursorKept(files[h], chains[f], ch', m);
    }
  }

  /** The block that the next cluster goes to, if it has room, is the last. */
  lemma LastBlock(ch: Chain, m: nat, j: nat)
    requires Sized(ch, m) && j < |ch.ics| && |ch.cs| < Start(j, m) + m
    ensures j == |ch.ics| - 1 && Start(|ch.ics|, m) == Start(j, m) + m
  {
    if j < |ch.ics| - 1 {
      StartMono(j, |ch.ics| - 1, m);
    }
  }

  lemma IndirectsApart(owner: seq<Owner>, chains: seq<Chain>, f: nat)
    requires Owned(owner, chains) && f < |chains|
    ensures forall i, j :: 0 <= i < j < |chains[f].ics| ==> chains[f].ics[i] != chains[f].ics[j]
  {
    forall i, j | 0 <= i < j < |chains[f].ics|
      ensures chains[f].ics[i] != chains[f].ics[j]
    {
      assert OwnsIndirect(owner, chains, f, i) && OwnsIndirect(owner, chains, f, j);
    }
  }

  /** Only free clusters have new owners: one the next data cluster of f and, if `linked`, one its next
      indirect cluster. */
  ghost predicate OwnersGrown(owner: seq<Owner>, owner': seq<Owner>, f: nat, ch: Chain, linked: bool) {
    |owner'| == |owner| && forall d :: 0 <= d < |owner| && owner'[d] != owner[d] ==>
      owner[d] == Unowned && (owner'[d] == Data(f, |ch.cs|) || (linked && owner'[d] == Indirect(f, |ch.ics|)))
  }

  /** Cluster c has been appended to file f: the chain of f is longer, with a new indirect cluster if
      `linked`, and the store is changed only in the bitmap and in the indirect clusters of f. */
  ghost predicate Grown(f: nat, c: nat, linked: bool, v: Snapshot, v': Snapshot, ly: Layout) {
    && f < |v.chains| == |v.inodes| == |v'.chains| == |v'.inodes| && c < |v.owner| == |v'.owner| && v.owner[c] == Unowned
    && v'.chains[f].cs == v.chains[f].cs + [c] && v'.chains == v.chains[f := v'.chains[f]]
    && v'.inodes == v.inodes[f := v'.inodes[f]] && v'.inodes[f].size == v.inodes[f].size
    && v.chains[f].ics <= v'.chains[f].ics && |v'.chains[f].ics| == |v.chains[f].ics| + (if linked then 1 else 0)
    && OnlyMaps(v.store, v'.store, ly, v'.owner, f)
    && OwnersGrown(v.owner, v'.owner, f, v.chains[f], linked)
    && |v'.files| == |v.files|
    && forall h :: 0 <= h < |v.files| ==> v'.files[h].pf == v.files[h].pf && v'.files[h].pointer == v.files[h].pointer
  }

  /** A file grows by cluster c, which a direct pointer takes, after the bitmap has been changed. */
  lemma DirectAppended(v: Snapshot, store': seq<seq<Byte>>, ly: Layout, m: nat, f: nat, c: nat) returns (v': Snapshot)
    requires FilesOk(v, m) && ReservedOk(v.owner, ly) && OnlyBitmap(v.store, store', ly)
    requires f < |v.chains| && c < |v.owner| && v.owner[c] == Unowned
    requires 0 < v.inodes[f].count <= MAX_DIRECT_CLUSTER
    ensures var p, ch := v.inodes[f], v.chains[f];
      && 0 < p.count <= |p.dclusters|
      && v' == Snapshot(store', v.inodes[f := p.(count := p.count + 1, dclusters := p.dclusters[p.count - 1 := c])],
                        v.chains[f := Chain(ch.cs + [c], ch.ics)], v.files, v.owner[c := Data(f, |ch.cs|)])
    ensures FilesOk(v', m) && Grown(f, c, false, v, v', ly)
  {
    var owner', chains' := OwnedData(v.owner, v.chains, f, c);
    FilesElsewhere(v, store', ly, m, f);
    var p', ch' := DescribesDirect(store', v.inodes[f], v.chains[f], m, c);
    v' := Snapshot(store', v.inodes[f := p'], chains', v.files, owner');
    LongerCursors(v.files, v.chains, f, ch', m);
    FilesAfter(v, v', m, f, p', ch');
  }

  /** A file grows by cluster c, whose pointer goes to its last block, after the bitmap has been changed. */
  lemma RoomAppended(v: Snapshot, store1: seq<seq<Byte>>, store': seq<seq<Byte>>, ly: Layout, m: nat, f: nat, j: nat, c: nat)
      returns (v': Snapshot)
    requires FilesOk(v, m) && ReservedOk(v.owner, ly) && OnlyBitmap(v.store, store1, ly)
    requires f < |v.chains| && c < |v.owner| && v.owner[c] == Unowned && c < WORD
    requires j < |v.chains[f].ics| && Start(j, m) <= |v.chains[f].cs| < Start(j, m) + m
    requires var last := v.chains[f].ics[j];
      && last < |v.store| && |store1[last]| == 4 * m + 4
      && store' == store1[last := WriteWord(store1[last], |v.chains[f].cs| - Start(j, m), c)]
    ensures var p, ch := v.inodes[f], v.chains[f];
      v' == Snapshot(store', v.inodes[f := p.(count := p.count + 1)], v.chains[f := Chain(ch.cs + [c], ch.ics)], v.files,
                     v.owner[c := Data(f, |ch.cs|)])
    ensures FilesOk(v', m) && Grown(f, c, false, v, v', ly)
  {
    var ch := v.chains[f];
    LastBlock(ch, m, j);
    FilesElsewhere(v, store1, ly, m, f);
    IndirectsApart(v.owner, v.chains, f);
    var s, p', ch' := DescribesRoom(store1, v.inodes[f], ch, m, c, WriteWord(store1[ch.ics[j]], |ch.cs| - Start(j, m), c));
    var owner', chains' := OwnedData(v.owner, v.chains, f, c);
    v' := Snapshot(store', v.inodes[f := p'], chains', v.files, owner');
    LongerCursors(v.files, v.chains, f, ch', m);
    assert OwnsIndirect(v.owner, v.chains, f, j);
    FilesAfter(v, v', m, f, p', ch');
  }

  /** Only the first block starts where the direct clusters end. */
  lemma FirstBlock(q: nat, m: nat)
    ensures 0 < m ==> (Start(q, m) == MAX_DIRECT_CLUSTER + 1 <==> q == 0)
  {
    StartMono(0, q, m);
  }

  /** A new indirect cluster has been linked behind the last one: besides the bitmap only that has changed. */
  ghost predicate LinkWritten(store: seq<seq<Byte>>, store': seq<seq<Byte>>, ly: Layout, ch: Chain, m: nat, ic: nat) {
    && |store'| == |store|
    && (forall d: nat :: d < |store| && !InMap(ly, d) && (ch.ics == [] || d != ch.ics[|ch.ics| - 1]) ==> store'[d] == store[d])
    && (ch.ics != [] ==> WordIn(store', ch.ics[|ch.ics| - 1], m) == ic && SameWords(store, store', ch.ics[|ch.ics| - 1], m))
  }

  /** All blocks of the file of open file h are full, and its cached position is past the last one. */
  ghost predicate AtEnd(v: Snapshot, m: nat, h: nat) {
    && h < |v.files| && v.files[h].pf < |v.chains|
    && FilesOk(v.(files := v.files[h := v.files[h].(icluster := 0, ifirst := 0)]), m)
    && var ch := v.chains[v.files[h].pf]; v.files[h].ifirst == |ch.cs| == Start(|ch.ics|, m)
  }

  /** What linking the new indirect cluster ic has changed since v. */
  ghost predicate LinkedTo(v: Snapshot, v1: Snapshot, ly: Layout, m: nat, h: nat, ic: nat) {
    && h < |v.files| && v.files[h].pf < |v.chains| == |v.inodes|
    && var f := v.files[h].pf; var ch := v.chains[f];
    && ic < |v.owner| && v.owner[ic] == Unowned && v1.owner == v.owner[ic := Indirect(f, |ch.ics|)]
    && LinkWritten(v.store, v1.store, ly, ch, m, ic)
    && v1.inodes == v.inodes[f := v.inodes[f].(head := if ch.ics == [] then ic else v.inodes[f].head)]
    && v1.files == v.files[h := v.files[h].(icluster := ic)] && v1.chains == v.chains
  }

  lemma LinkIsTo(v: Snapshot, v1: Snapshot, ly: Layout, m: nat, h: nat, ic: nat)
    requires AtEnd(v, m, h) && |v.chains| == |v.inodes| && ic < |v.owner| && v.owner[ic] == Unowned
    requires v1.chains == v.chains && v1.files == v.files[h := v.files[h].(icluster := ic)]
    requires var f := v.files[h].pf; var ch := v.chains[f];
      && v1.owner == v.owner[ic := Indirect(f, |ch.ics|)] && LinkWritten(v.store, v1.store, ly, ch, m, ic)
      && v1.inodes == v.inodes[f := v.inodes[f].(head := if ch.ics == [] then ic else v.inodes[f].head)]
    ensures LinkedTo(v, v1, ly, m, h, ic)
  {}

  /** The first word of the new indirect cluster has been written, after the bitmap has been changed. */
  ghost predicate FirstWritten(v: Snapshot, v1: Snapshot, store2: seq<seq<Byte>>, store': seq<seq<Byte>>, ly: Layout, ic: nat, c: nat) {
    && OnlyBitmap(v1.store, store2, ly) && c < |v.owner| && c != ic && v.owner[c] == Unowned && c < WORD
    && ic < |store2| && 4 <= |store2[ic]| && store' == store2[ic := WriteWord(store2[ic], 0, c)]
  }

  /** A file grows by cluster c and a new indirect cluster ic. */
  lemma LinkAppended(v: Snapshot, v1: Snapshot, store2: seq<seq<Byte>>, store': seq<seq<Byte>>, ly: Layout, m: nat, h: nat, ic: nat, c: nat)
      returns (v': Snapshot)
    requires AtEnd(v, m, h) && ReservedOk(v.owner, ly) && 0 < m
    requires LinkedTo(v, v1, ly, m, h, ic) && FirstWritten(v, v1, store2, store', ly, ic, c)
    ensures var f := v.files[h].pf; var p, ch := v1.inodes[f], v.chains[f];
      && v' == Snapshot(store', v1.inodes[f := p.(count := p.count + 1)], v.chains[f := Chain(ch.cs + [c], ch.ics + [ic])],
                        v1.files, v1.owner[c := Data(f, |ch.cs|)])
      && FilesOk(v', m) && Grown(f, c, true, v, v', ly)
  {
    var f := v.files[h].pf;
    var ch := v.chains[f];
    var owner2, chains1 := OwnedIndirect(v.owner, v.chains, f, ic);
    var owner', chains' := OwnedData(v1.owner, chains1, f, c);
    LinkedWords(v, v1, store2, store', ly, m, h, ic, c);
    var p', ch' := DescribesLinked(v.store, v.inodes[f], ch, m, ic, c, store');
    assert chains' == v.chains[f := ch'] && v1.inodes[f := p'] == v.inodes[f := p'];
    v' := Snapshot(store', v1.inodes[f := p'], chains', v1.files, owner');
    LinkedCursors(v, v1.files, m, h, ic, ch');
    LinkGrown(v, v1, v', ly, m, h, ic, c);
    FilesAfter(v.(files := v.files[h := v.files[h].(icluster := 0, ifirst := 0)]), v', m, f, p', ch');
  }

  lemma LinkGrown(v: Snapshot, v1: Snapshot, v': Snapshot, ly: Layout, m: nat, h: nat, ic: nat, c: nat)
    requires AtEnd(v, m, h) && LinkedTo(v, v1, ly, m, h, ic) && c < |v.owner| && v.owner[c] == Unowned && c != ic
    requires var f := v.files[h].pf; var p, ch := v1.inodes[f], v.chains[f];
      && v'.inodes == v1.inodes[f := p.(count := p.count + 1)] && v'.chains == v.chains[f := Chain(ch.cs + [c], ch.ics + [ic])]
      && v'.files == v1.files && v'.owner == v1.owner[c := Data(f, |ch.cs|)]
      && OnlyMaps(v.store, v'.store, ly, v'.owner, f)
    ensures Grown(v.files[h].pf, c, true, v, v', ly)
  {}

  lemma LinkedCursors(v: Snapshot, files': seq<File>, m: nat, h: nat, ic: nat, ch': Chain)
    requires AtEnd(v, m, h) && files' == v.files[h := v.files[h].(icluster := ic)]
    requires ch'.ics == v.chains[v.files[h].pf].ics + [ic]
    ensures forall g :: 0 <= g < |files'| && files'[g].pf == v.files[h].pf ==> CursorOk(files'[g], ch', m)
  {
    var ch, files0 := v.chains[v.files[h].pf], v.files[h := v.files[h].(icluster := 0, ifirst := 0)];
    assert CursorAt(files'[h], ch', m, |ch.ics|);
    forall g | 0 <= g < |files'| && files'[g].pf == v.files[h].pf && g != h
      ensures CursorOk(files'[g], ch', m)
    {
      assert files'[g] == files0[g];
      CursorKept(files0[g], ch, ch', m);
    }
  }

  lemma LinkedWords(v: Snapshot, v1: Snapshot, store2: seq<seq<Byte>>, store': seq<seq<Byte>>, ly: Layout, m: nat, h: nat, ic: nat, c: nat)
    requires LinkedTo(v, v1, ly, m, h, ic) && FirstWritten(v, v1, store2, store', ly, ic, c)
    requires Owned(v.owner, v.chains) && ReservedOk(v.owner, ly)
    ensures var f := v.files[h].pf; var ics := v.chains[f].ics;
      && WordIn(store', ic, 0) == c && ic !in ics
      && (ics != [] ==> WordIn(store', ics[|ics| - 1], m) == ic && SameWords(v.store, store', ics[|ics| - 1], m))
      && (forall j :: 0 <= j < |ics| - 1 ==> SameWords(v.store, store', ics[j], m + 1))
      && (forall d: nat :: d < |v.owner| && d < |v.store| && v.owner[d].Indirect? && v.owner[d].file != f ==> store'[d] == v.store[d])
      && OnlyMaps(v.store, store', ly, v1.owner[c := Data(f, |v.chains[f].cs|)], f)
  {
    var f := v.files[h].pf;
    var ics := v.chains[f].ics;
    ReadWritten(store2[ic], 0, c, 0);
    IndirectsApart(v.owner, v.chains, f);
    forall j | 0 <= j < |ics|
      ensures ics[j] < |v.owner| && ics[j] != ic && !InMap(ly, ics[j]) && v.owner[ics[j]] == Indirect(f, j)
    {
      assert OwnsIndirect(v.owner, v.chains, f, j);
    }
  }

  lemma LinkStored(store: seq<seq<Byte>>, store1: seq<seq<Byte>>, store': seq<seq<Byte>>, ly: Layout, ch: Chain, m: nat, ic: nat)
    requires OnlyBitmap(store, store1, ly) && ch.ics != [] && ic < WORD
    requires var last := ch.ics[|ch.ics| - 1];
      && last < |store| && !InMap(ly, last) && |store1[last]| == 4 * m + 4
      && store' == store1[last := WriteWord(store1[last], m, ic)]
    ensures LinkWritten(store, store', ly, ch, m, ic)
  {
    var last := ch.ics[|ch.ics| - 1];
    forall k: nat | k <= m
      ensures WordIn(store', last, k) == if k == m then ic else WordIn(store, last, k)
    {
      ReadWritten(store1[last], m, ic, k);
    }
  }

  /** The walk for the next cluster of a file ends in its last block or, if all are full, past it. */
  lemma EndOrBlock(ch: Chain, m: nat, j: nat, index: nat)
    requires Sized(ch, m) && j <= |ch.ics| && index == |ch.cs| && Start(j, m) <= index
    requires j < |ch.ics| ==> index < Start(j, m) + m
    requires j == |ch.ics| ==> index == Start(j, m)
    ensures Start(j, m) == index <==> j == |ch.ics|
    ensures index == Start(|ch.ics|, m) <==> j == |ch.ics|
  {
    ChainEnd(ch, m, j);
    if j < |ch.ics| {
      LastBlock(ch, m, j);
    }
  }

  /** The cluster belongs to file f. */
  predicate Of(x: Owner, f: nat) {
    (x.Data? || x.Indirect?) && x.file == f
  }

  /** Whether a cluster with owner x goes when file f is cut from n clusters on up to `index`: its data
      clusters from there, and the indirect clusters that start there. */
  ghost predicate Gone(x: Owner, f: nat, m: nat, n: nat, index: nat) {
    match x
    case Data(g, k) => g == f && n <= k < index
    case Indirect(g, j) => g == f && n <= Start(j, m) < index
    case _ => false
  }

  ghost predicate FreedUpTo(owner: seq<Owner>, owner': seq<Owner>, f: nat, m: nat, n: nat, index: nat) {
    |owner'| == |owner| &&
    forall c :: 0 <= c < |owner| ==> owner'[c] == if Gone(owner[c], f, m, n, index) then Unowned else owner[c]
  }

  /** One more data cluster is freed, and the indirect cluster that starts with it if there is one. */
  lemma FreedStep(owner: seq<Owner>, owner1: seq<Owner>, chains: seq<Chain>, f: nat, m: nat, n: nat, k: nat, j: nat,
                  starts: bool) returns (owner': seq<Owner>)
    requires Owned(owner, chains) && f < |chains| && n <= k < |chains[f].cs|
    requires FreedUpTo(owner, owner1, f, m, n, k)
    requires starts ==> j < |chains[f].ics| && Start(j, m) == k
    requires !starts ==> forall i :: 0 <= i < |chains[f].ics| ==> Start(i, m) != k
    requires 0 < m
    ensures var c := chains[f].cs[k];
      && c < |owner1| && owner1[c] == Data(f, k)
      && (starts ==> chains[f].ics[j] < |owner1| && owner1[c := Unowned][chains[f].ics[j]] == Indirect(f, j))
      && owner' == (if starts then owner1[c := Unowned][chains[f].ics[j] := Unowned] else owner1[c := Unowned])
      && FreedUpTo(owner, owner', f, m, n, k + 1)
  {
    var c := chains[f].cs[k];
    assert OwnsData(owner, chains, f, k);
    if starts {
      assert OwnsIndirect(owner, chains, f, j);
    }
    owner' := if starts then owner1[c := Unowned][chains[f].ics[j] := Unowned] else owner1[c := Unowned];
    forall d | 0 <= d < |owner|
      ensures owner'[d] == if Gone(owner[d], f, m, n, k + 1) then Unowned else owner[d]
    {
      assert Belongs(owner, chains, d);
      if owner[d].Indirect? && owner[d].file == f && starts && Start(owner[d].index, m) == k {
        StartUnique(owner[d].index, j, m, k);
      }
    }
  }

  /** After the cut, owners and chains agree again. */
  lemma OwnedCut(owner: seq<Owner>, owner': seq<Owner>, chains: seq<Chain>, f: nat, m: nat, n: nat)
    requires Owned(owner, chains) && f < |chains| && Sized(chains[f], m) && n <= |chains[f].cs|
    requires FreedUpTo(owner, owner', f, m, n, |chains[f].cs|)
    ensures Owned(owner', chains[f := Cut(chains[f], m, n)])
  {
    var ch, ch' := chains[f], Cut(chains[f], m, n);
    var chains' := chains[f := ch'];
    forall g, k | 0 <= g < |chains'| && 0 <= k < |chains'[g].cs|
      ensures OwnsData(owner', chains', g, k)
    {
      assert OwnsData(owner, chains, g, k);
    }
    forall g, j | 0 <= g < |chains'| && 0 <= j < |chains'[g].ics|
      ensures OwnsIndirect(owner', chains', g, j)
    {
      assert OwnsIndirect(owner, chains, g, j);
      if g == f {
        StartMono(j, |ch'.ics| - 1, m);
      }
    }
    forall c | 0 <= c < |owner'|
      ensures Belongs(owner', chains', c)
    {
      assert Belongs(owner, chains, c);
      if owner[c].Indirect? && owner[c].file == f {
        BeyondCut(ch, m, n, owner[c].index);
      }
    }
  }

  /** The indirect clusters that go are those the cut chain does not need. */
  lemma BeyondCut(ch: Chain, m: nat, n: nat, j: nat)
    requires Sized(ch, m) && n <= |ch.cs| && j < |ch.ics|
    ensures Start(j, m) < |ch.cs|
    ensures n <= Start(j, m) <==> Needed(|ch.ics|, m, n) <= j
  {
    var r := Needed(|ch.ics|, m, n);
    StartMono(j, |ch.ics| - 1, m);
    if r <= j {
      StartMono(r, j, m);
    } else {
      StartMono(j, r - 1, m);
    }
  }

  /** The cut frees as many clusters as the chain loses: data clusters and indirect ones. */
  lemma FreedCount(owner: seq<Owner>, owner': seq<Owner>, chains: seq<Chain>, f: nat, m: nat, n: nat)
    requires Owned(owner, chains) && f < |chains| && Sized(chains[f], m) && n <= |chains[f].cs| && 0 < m
    requires FreedUpTo(owner, owner', f, m, n, |chains[f].cs|)
    ensures var ch, ch' := chains[f], Cut(chains[f], m, n);
      FreeClusters(owner') == FreeClusters(owner) + (|ch.cs| - |ch'.cs|) + (|ch.ics| - |ch'.ics|)
  {
    FreedCountTo(owner, owner', chains, f, m, n, |chains[f].cs|);
    AllBlocks(chains[f], m);
    CutBlocks(chains[f], m, n);
  }

  lemma AllBlocks(ch: Chain, m: nat)
    requires Sized(ch, m) && 0 < m
    ensures Blocks(ch, m, |ch.cs|) == |ch.ics|
  {
    if ch.ics != [] {
      NeededIs(|ch.ics|, m, |ch.cs|, |ch.ics|);
    }
  }

  lemma CutBlocks(ch: Chain, m: nat, n: nat)
    requires Sized(ch, m) && n <= |ch.cs|
    ensures |Cut(ch, m, n).cs| == n && |Cut(ch, m, n).ics| == Blocks(ch, m, n)
  {}

  lemma NoneFreed(owner: seq<Owner>, owner': seq<Owner>, f: nat, m: nat, n: nat)
    requires FreedUpTo(owner, owner', f, m, n, n)
    ensures owner' == owner
  {}

  lemma SomeFreed(owner: seq<Owner>, f: nat, m: nat, n: nat, k: nat) returns (owner': seq<Owner>)
    ensures FreedUpTo(owner, owner', f, m, n, k)
  {
    owner' := seq(|owner|, c requires 0 <= c < |owner| => if Gone(owner[c], f, m, n, k) then Unowned else owner[c]);
  }

  /** How many clusters have no owner, and how many blocks of a chain start before position n. */
  ghost function FreeClusters(owner: seq<Owner>): nat {
    CountFree(owner, |owner|)
  }

  ghost function Blocks(ch: Chain, m: nat, n: nat): nat {
    Needed(|ch.ics|, m, n)
  }

  lemma {:induction false} FreedCountTo(owner: seq<Owner>, owner': seq<Owner>, chains: seq<Chain>, f: nat, m: nat, n: nat, k: nat)
    requires Owned(owner, chains) && f < |chains| && n <= k <= |chains[f].cs| && 0 < m
    requires FreedUpTo(owner, owner', f, m, n, k)
    ensures FreeClusters(owner') == FreeClusters(owner) + (k - n) + (Blocks(chains[f], m, k) - Blocks(chains[f], m, n))
    decreases k
  {
    if k == n {
      NoneFreed(owner, owner', f, m, n);
    } else {
      var owner1 := SomeFreed(owner, f, m, n, k - 1);
      FreedCountTo(owner, owner1, chains, f, m, n, k - 1);
      FreedCountStep(owner, owner1, owner', chains, f, m, n, k - 1);
    }
  }

  lemma FreedCountStep(owner: seq<Owner>, owner1: seq<Owner>, owner': seq<Owner>, chains: seq<Chain>, f: nat, m: nat, n: nat, k: nat)
    requires Owned(owner, chains) && f < |chains| && n <= k < |chains[f].cs| && 0 < m
    requires FreedUpTo(owner, owner1, f, m, n, k) && FreedUpTo(owner, owner', f, m, n, k + 1)
    ensures FreeClusters(owner') == FreeClusters(owner1) + 1 + (Blocks(chains[f], m, k + 1) - Blocks(chains[f], m, k))
  {
    var ch, j := chains[f], Needed(|chains[f].ics|, m, k);
    var starts := j < |ch.ics| && Start(j, m) == k;
    StartsAt(|ch.ics|, m, k);
    var owner2 := FreedStep(owner, owner1, chains, f, m, n, k, j, starts);
    assert owner2 == owner';
    CountChange(owner1, ch.cs[k], Unowned, |owner|);
    if starts {
      CountChange(owner1[ch.cs[k] := Unowned], ch.ics[j], Unowned, |owner|);
    }
  }

  lemma StartsElsewhere(q: nat, m: nat, k: nat, i: nat)
    requires 0 < m && i < q && i != Needed(q, m, k)
    ensures Start(i, m) != k
  {
    var j := Needed(q, m, k);
    if i < j {
      StartMono(i, j - 1, m);
    } else {
      StartMono(j, i, m);
    }
  }

  /** Which of q indirect clusters starts at position k, if any. */
  lemma StartsAt(q: nat, m: nat, k: nat)
    requires 0 < m
    ensures var j := Needed(q, m, k);
      if j < q && Start(j, m) == k then Needed(q, m, k + 1) == j + 1
      else Needed(q, m, k + 1) == j && forall i :: 0 <= i < q ==> Start(i, m) != k
  {
    var j := Needed(q, m, k);
    forall i: nat | i < q && i != j
      ensures Start(i, m) != k
    {
      StartsElsewhere(q, m, k, i);
    }
    if j < q && Start(j, m) == k {
      if j + 1 < q {
        StartMono(j, j + 1, m);
      }
      NeededIs(q, m, k + 1, j + 1);
    } else {
      NeededIs(q, m, k + 1, j);
    }
  }

  /** A file deleted as a whole: every cluster of it ends without an owner, no other one changes its owner. */
  lemma WholeFileFreed(owner: seq<Owner>, owner': seq<Owner>, chains: seq<Chain>, f: nat, m: nat, c: nat)
    requires Owned(owner, chains) && f < |chains| && Sized(chains[f], m)
    requires FreedUpTo(owner, owner', f, m, 0, |chains[f].cs|) && c < |owner|
    ensures owner'[c] == if Of(owner[c], f) then Unowned else owner[c]
    ensures Cut(chains[f], m, 0) == Chain([], [])
  {
    assert Belongs(owner, chains, c);
    if owner[c].Indirect? && owner[c].file == f {
      BeyondCut(chains[f], m, 0, owner[c].index);
    }
  }

  /** File f has grown: only free clusters have new owners, and these are for the end of f. */
  ghost predicate Extended(owner: seq<Owner>, owner': seq<Owner>, f: nat, ch: Chain, ch': Chain) {
    && ch.cs <= ch'.cs && ch.ics <= ch'.ics && |owner'| == |owner|
    && forall d :: 0 <= d < |owner| && owner'[d] != owner[d] ==>
      owner[d] == Unowned && match owner'[d]
                             case Data(g, k) => g == f && |ch.cs| <= k < |ch'.cs|
                             case Indirect(g, j) => g == f && |ch.ics| <= j < |ch'.ics|
                             case _ => false
  }

  /** Each append extends the file further. */
  lemma ExtendedFurther(owner: seq<Owner>, owner1: seq<Owner>, owner2: seq<Owner>, f: nat, ch: Chain, ch1: Chain, ch2: Chain,
                        c: nat, linked: bool)
    requires Extended(owner, owner1, f, ch, ch1) && OwnersGrown(owner1, owner2, f, ch1, linked)
    requires ch2.cs == ch1.cs + [c] && ch1.ics <= ch2.ics && |ch2.ics| == |ch1.ics| + if linked then 1 else 0
    ensures Extended(owner, owner2, f, ch, ch2)
  {}

  /** The blocks of the longer chain that the shorter one does not have are those that start at its end or later. */
  lemma NewBlock(ch: Chain, ch': Chain, m: nat, j: nat)
    requires Sized(ch, m) && Sized(ch', m) && |ch.ics| <= |ch'.ics| && j < |ch'.ics|
    ensures Start(j, m) < |ch'.cs| && (|ch.cs| <= Start(j, m) <==> |ch.ics| <= j)
  {
    StartMono(j, |ch'.ics| - 1, m);
    if |ch.ics| <= j {
      StartMono(|ch.ics|, j, m);
    } else {
      StartMono(j, |ch.ics| - 1, m);
    }
  }

  lemma RestoredAt(owner: seq<Owner>, owner1: seq<Owner>, owner2: seq<Owner>, chains: seq<Chain>, f: nat, ch': Chain, m: nat, d: nat)
    requires Owned(owner, chains) && f < |chains| && Sized(chains[f], m) && Sized(ch', m)
    requires Extended(owner, owner1, f, chains[f], ch') && d < |owner|
    requires FreedUpTo(owner1, owner2, f, m, |chains[f].cs|, |ch'.cs|)
    ensures owner2[d] == owner[d]
  {
    assert Belongs(owner, chains, d);
    if owner1[d].Indirect? && owner1[d].file == f {
      NewBlock(chains[f], ch', m, owner1[d].index);
    }
  }

  /** Cutting a file back to where it was before it grew restores every owner. */
  lemma AppendThenDelete(owner: seq<Owner>, owner1: seq<Owner>, owner2: seq<Owner>, chains: seq<Chain>, f: nat, ch': Chain, m: nat)
    requires Owned(owner, chains) && f < |chains| && Sized(chains[f], m) && Sized(ch', m) && 0 < m
    requires Extended(owner, owner1, f, chains[f], ch')
    requires FreedUpTo(owner1, owner2, f, m, |chains[f].cs|, |ch'.cs|)
    ensures owner2 == owner && Cut(ch', m, |chains[f].cs|) == chains[f]
  {
    forall d | 0 <= d < |owner|
      ensures owner2[d] == owner[d]
    {
      RestoredAt(owner, owner1, owner2, chains, f, ch', m, d);
    }
    CutBack(chains[f], ch', m);
  }

  lemma CutBack(ch: Chain, ch': Chain, m: nat)
    requires Sized(ch, m) && Sized(ch', m) && ch.cs <= ch'.cs && ch.ics <= ch'.ics && 0 < m
    ensures Cut(ch', m, |ch.cs|) == ch
  {
    NeededIs(|ch'.ics|, m, |ch.cs|, |ch.ics|);
    assert ch'.cs[..|ch.cs|] == ch.cs && ch'.ics[..|ch.ics|] == ch.ics;
  }

  /** The i-th of a run of appends to file f. */
  ghost predicate AppendStep(owners: seq<seq<Owner>>, chs: seq<Chain>, f: nat, i: nat) {
    && i + 1 < |owners| == |chs| && |chs[i].ics| <= |chs[i + 1].ics| && |chs[i].cs| + 1 == |chs[i + 1].cs|
    && chs[i].cs <= chs[i + 1].cs && chs[i].ics <= chs[i + 1].ics && |chs[i + 1].ics| <= |chs[i].ics| + 1
    && OwnersGrown(owners[i], owners[i + 1], f, chs[i], |chs[i].ics| < |chs[i + 1].ics|)
  }

  ghost predicate AppendRun(owners: seq<seq<Owner>>, chs: seq<Chain>, f: nat, n: nat) {
    n < |owners| == |chs| && forall i: nat :: i < n ==> AppendStep(owners, chs, f, i)
  }

  /** One append is such a step. */
  lemma GrownIsStep(f: nat, c: nat, linked: bool, v: Snapshot, v': Snapshot, ly: Layout)
    requires Grown(f, c, linked, v, v', ly)
    ensures AppendStep([v.owner, v'.owner], [v.chains[f], v'.chains[f]], f, 0)
  {}

  /** A run with one more step. */
  lemma RunLonger(owners: seq<seq<Owner>>, chs: seq<Chain>, f: nat, n: nat, owner': seq<Owner>, ch': Chain)
    requires |owners| == |chs| == n + 1 && AppendRun(owners, chs, f, n)
    requires AppendStep([owners[n], owner'], [chs[n], ch'], f, 0)
    ensures AppendRun(owners + [owner'], chs + [ch'], f, n + 1)
  {
    forall i: nat | i < n + 1
      ensures AppendStep(owners + [owner'], chs + [ch'], f, i)
    {
      assert i < n ==> AppendStep(owners, chs, f, i);
    }
  }

  lemma {:induction false} RunExtends(owners: seq<seq<Owner>>, chs: seq<Chain>, f: nat, n: nat)
    requires AppendRun(owners, chs, f, n)
    ensures Extended(owners[0], owners[n], f, chs[0], chs[n])
  {
    if n != 0 {
      RunExtends(owners, chs, f, n - 1);
      assert AppendStep(owners, chs, f, n - 1);
      var k := |chs[n - 1].cs|;
      assert chs[n].cs == chs[n - 1].cs + [chs[n].cs[k]];
      ExtendedFurther(owners[0], owners[n - 1], owners[n], f, chs[0], chs[n - 1], chs[n], chs[n].cs[k],
                      |chs[n - 1].ics| < |chs[n].ics|);
    }
  }

  /** Any run of appends undone by one cut: the same owners, the same chain, the same bitmap, the same count. */
  lemma RunThenDelete(owners: seq<seq<Owner>>, chs: seq<Chain>, chains: seq<Chain>, f: nat, m: nat, owner': seq<Owner>,
                      store: seq<seq<Byte>>, store': seq<seq<Byte>>, start: nat, wpc: nat)
    requires 0 < |owners| == |chs| && AppendRun(owners, chs, f, |owners| - 1)
    requires f < |chains| && Owned(owners[0], chains) && chs[0] == chains[f] && 0 < m
    requires Sized(chs[0], m) && Sized(chs[|chs| - 1], m)
    requires FreedUpTo(owners[|owners| - 1], owner', f, m, |chs[0].cs|, |chs[|chs| - 1].cs|)
    requires Tracks(store, start, wpc, owners[0]) && Tracks(store', start, wpc, owner')
    ensures |chs[0].cs| <= |chs[|chs| - 1].cs| && owner' == owners[0] && Cut(chs[|chs| - 1], m, |chs[0].cs|) == chs[0]
    ensures forall d: nat :: d < |owner'| ==>
      (Marked(store', start, wpc, |owner'|, d) <==> Marked(store, start, wpc, |owner'|, d))
    ensures ClearBits(store', start, wpc, |owner'|, |owner'|) == ClearBits(store, start, wpc, |owner'|, |owner'|)
  {
    RunExtends(owners, chs, f, |owners| - 1);
    AppendThenDelete(owners[0], owners[|owners| - 1], owner', chains, f, chs[|chs| - 1], m);
    ClearBitsCounted(store, start, wpc, owner', |owner'|);
    ClearBitsCounted(store', start, wpc, owner', |owner'|);
  }

  lemma NeededIs(q: nat, m: nat, n: nat, r: nat)
    requires 0 < m && r <= q && (r < q ==> n <= Start(r, m)) && (0 < r ==> Start(r - 1, m) < n)
    ensures Needed(q, m, n) == r
  {
    var s := Needed(q, m, n);
    if s < r {
      StartMono(s, r - 1, m);
    } else if r < s {
      StartMono(r, s - 1, m);
    }
  }

  /** Whether data cluster k is the first of a block shows in the cached position, which is its block. */
  lemma FirstOfBlock(h: File, ch: Chain, m: nat, k: nat) returns (j: nat)
    requires CursorOk(h, ch, m)
    requires MAX_DIRECT_CLUSTER < k ==> exists i :: CursorAt(h, ch, m, i) && h.ifirst <= k < h.ifirst + m
    ensures if k != 0 && k == h.ifirst then j < |ch.ics| && Start(j, m) == k && h.icluster == ch.ics[j]
            else forall i :: 0 <= i < |ch.ics| ==> Start(i, m) != k
  {
    j := 0;
    if MAX_DIRECT_CLUSTER < k {
      j :| CursorAt(h, ch, m, j);
      forall i: nat | i < |ch.ics| && Start(i, m) == k
        ensures i == j
      {
        StartUnique(i, j, m, k);
      }
    } else if h.ifirst != 0 {
      j :| CursorAt(h, ch, m, j);
    }
  }

  /** The open files with the cached positions in file f from n on reset. */
  function Reset(files: seq<File>, f: nat, n: nat): (r: seq<File>)
    ensures |r| == |files|
    ensures forall i :: 0 <= i < |files| ==> r[i].pf == files[i].pf && r[i].pointer == files[i].pointer
  {
    seq(|files|, i requires 0 <= i < |files| =>
      if files[i].pf == f && files[i].ifirst >= n then files[i].(icluster := 0, ifirst := 0) else files[i])
  }

  /** A cached position that starts before the cut is still one of the chain. */
  lemma CursorCut(h: File, ch: Chain, m: nat, n: nat)
    requires CursorOk(h, ch, m) && Sized(ch, m) && n <= |ch.cs|
    ensures h.ifirst < n ==> CursorOk(h, Cut(ch, m, n), m)
  {
    if h.ifirst != 0 && h.ifirst < n {
      var j :| CursorAt(h, ch, m, j);
      BeyondCut(ch, m, n, j);
      assert CursorAt(h, Cut(ch, m, n), m, j);
    }
  }

  /** File f cut to n clusters, with the positions past the end reset. */
  lemma FilesCut(v: Snapshot, store': seq<seq<Byte>>, files': seq<File>, owner': seq<Owner>, ly: Layout, m: nat, h: nat, n: nat)
      returns (ch': Chain)
    requires FilesOk(v, m) && ReservedOk(v.owner, ly) && OnlyBitmap(v.store, store', ly)
    requires SameButCursor(v.files, files', h) && v.files[h].pf < |v.chains| && CursorOk(files'[h], v.chains[v.files[h].pf], m)
    requires n <= |v.chains[v.files[h].pf].cs|
    requires FreedUpTo(v.owner, owner', v.files[h].pf, m, n, |v.chains[v.files[h].pf].cs|)
    ensures var f := v.files[h].pf;
      && Sized(v.chains[f], m) && ch' == Cut(v.chains[f], m, n)
      && FilesOk(Snapshot(store', v.inodes[f := v.inodes[f].(count := n)], v.chains[f := ch'], Reset(files', f, n), owner'), m)
  {
    var f := v.files[h].pf;
    var p' := v.inodes[f].(count := n);
    ch' := Cut(v.chains[f], m, n);
    FilesElsewhere(v, store', ly, m, f);
    DescribesCut(store', v.inodes[f], v.chains[f], m, n);
    OwnedCut(v.owner, owner', v.chains, f, m, n);
    forall i | 0 <= i < |v.files| && v.files[i].pf == f
      ensures CursorOk(Reset(files', f, n)[i], ch', m)
    {
      CursorCut(files'[i], v.chains[f], m, n);
    }
    FilesAfter(v, Snapshot(store', v.inodes[f := p'], v.chains[f := ch'], Reset(files', f, n), owner'), m, f, p', ch');
  }

  /** The channels without channel h. */
  function Dropped(files: seq<File>, h: nat): seq<File>
    requires h < |files|
  {
    files[..h] + files[h + 1..]
  }

  lemma FilesDropped(v: Snapshot, m: nat, h: nat)
    requires FilesOk(v, m) && h < |v.files|
    ensures FilesOk(v.(files := Dropped(v.files, h)), m)
  {}

  lemma DroppedSame(files: seq<File>, files': seq<File>, h: nat)
    requires SameButCursor(files, files', h)
    ensures Dropped(files', h) == Dropped(files, h)
  {}

  /** The last channel to a deleted file is gone: no cached position has to be reset. */
  lemma LastDropped(v: Snapshot, m: nat, h: nat)
    requires h < |v.files| && FilesOk(v.(files := Reset(v.files, v.files[h].pf, 0)), m)
    requires forall i :: 0 <= i < |v.files| && i != h ==> v.files[i].pf != v.files[h].pf
    ensures FilesOk(v.(files := Dropped(v.files, h)), m)
  {
    var files' := Reset(v.files, v.files[h].pf, 0);
    FilesDropped(v.(files := files'), m, h);
    assert Dropped(files', h) == Dropped(v.files, h);
  }

  /** No cluster of a file has been written. */
  ghost predicate NoneOwned(store: seq<seq<Byte>>, store': seq<seq<Byte>>, owner: seq<Owner>) {
    |store'| == |store| && forall d: nat :: d < |store| && d < |owner| && owner[d] != Reserved ==> store'[d] == store[d]
  }

  lemma FilesUntouched(v: Snapshot, store': seq<seq<Byte>>, m: nat)
    requires FilesOk(v, m) && NoneOwned(v.store, store', v.owner)
    ensures FilesOk(v.(store := store'), m)
  {
    forall f | 0 <= f < |v.chains|
      ensures Describes(store', v.inodes[f], v.chains[f], m)
    {
      forall j | 0 <= j < |v.chains[f].ics| && v.chains[f].ics[j] < |v.store|
        ensures store'[v.chains[f].ics[j]] == v.store[v.chains[f].ics[j]]
      {
        assert OwnsIndirect(v.owner, v.chains, f, j);
      }
      DescribesKept(v.store, store', v.inodes[f], v.chains[f], m);
    }
  }
}

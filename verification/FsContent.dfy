/** The bytes of a file: those of its clusters one after the other, less the inode at the front. */
module FsContent {
  import opened FsWords
  import opened FsBitmap
  import opened FsOwner
  import opened FsMap

  const INODE_BYTES: nat := 128

  ghost predicate Good(store: seq<seq<Byte>>, cs: seq<nat>, cb: nat) {
    0 < cb && forall k :: 0 <= k < |cs| ==> cs[k] < |store| && |store[cs[k]]| == cb
  }

  /** The clusters cs of the store, joined. */
  ghost function Flat(store: seq<seq<Byte>>, cs: seq<nat>): seq<Byte>
    requires forall k :: 0 <= k < |cs| ==> cs[k] < |store|
  {
    if cs == [] then [] else store[cs[0]] + Flat(store, cs[1..])
  }

  lemma {:induction false} FlatLength(store: seq<seq<Byte>>, cs: seq<nat>, cb: nat, pos: nat)
    requires Good(store, cs, cb)
    ensures pos < |Flat(store, cs)| <==> Quot(pos, cb) < |cs|
  {
    if cs != [] && cb <= pos {
      FlatLength(store, cs[1..], cb, pos - cb);
    }
  }

  /** A piece within one cluster. */
  lemma {:induction false} FlatSlice(store: seq<seq<Byte>>, cs: seq<nat>, cb: nat, pos: nat, n: nat)
    requires Good(store, cs, cb) && Quot(pos, cb) < |cs| && Rem(pos, cb) + n <= cb
    ensures pos + n <= |Flat(store, cs)|
    ensures Flat(store, cs)[pos..pos + n] == store[cs[Quot(pos, cb)]][Rem(pos, cb)..Rem(pos, cb) + n]
  {
    if cb <= pos {
      FlatSlice(store, cs[1..], cb, pos - cb, n);
      var rest := Flat(store, cs[1..]);
      assert Flat(store, cs)[pos..pos + n] == rest[pos - cb..pos - cb + n];
    }
  }

  lemma {:induction false} FlatSame(store: seq<seq<Byte>>, store': seq<seq<Byte>>, cs: seq<nat>)
    requires forall k :: 0 <= k < |cs| ==> cs[k] < |store| && cs[k] < |store'| && store'[cs[k]] == store[cs[k]]
    ensures Flat(store', cs) == Flat(store, cs)
  {
    if cs != [] {
      FlatSame(store, store', cs[1..]);
    }
  }

  /** A write within one cluster is a write at that position of the whole. */
  lemma {:induction false} FlatWrite(store: seq<seq<Byte>>, store': seq<seq<Byte>>, cs: seq<nat>, cb: nat, pos: nat, bytes: seq<Byte>)
    requires Good(store, cs, cb) && Quot(pos, cb) < |cs| && Rem(pos, cb) + |bytes| <= cb
    requires forall k :: 0 <= k < |cs| && k != Quot(pos, cb) ==> cs[k] != cs[Quot(pos, cb)]
    requires store' == store[cs[Quot(pos, cb)] := Splice(store[cs[Quot(pos, cb)]], Rem(pos, cb), bytes)]
    ensures pos + |bytes| <= |Flat(store, cs)| && Flat(store', cs) == Splice(Flat(store, cs), pos, bytes)
  {
    var rest := cs[1..];
    FlatSlice(store, cs, cb, pos, |bytes|);
    if cb <= pos {
      assert forall k :: 0 <= k < |rest| ==> rest[k] == cs[k + 1];
      assert cs[0] != cs[Quot(pos, cb)];
      FlatWrite(store, store', rest, cb, pos - cb, bytes);
      SpliceRight(store[cs[0]], Flat(store, rest), pos, bytes);
    } else {
      FlatSame(store, store', rest);
      SpliceLeft(store[cs[0]], Flat(store, rest), pos, bytes);
    }
  }

  lemma SpliceLeft(a: seq<Byte>, b: seq<Byte>, k: nat, bytes: seq<Byte>)
    requires k + |bytes| <= |a|
    ensures Splice(a, k, bytes) + b == Splice(a + b, k, bytes)
  {}

  lemma SpliceRight(a: seq<Byte>, b: seq<Byte>, k: nat, bytes: seq<Byte>)
    requires |a| <= k && k - |a| + |bytes| <= |b|
    ensures a + Splice(b, k - |a|, bytes) == Splice(a + b, k, bytes)
  {}

  lemma {:induction false} FlatCut(store: seq<seq<Byte>>, cs: seq<nat>, n: nat)
    requires (forall k :: 0 <= k < |cs| ==> cs[k] < |store|) && n <= |cs|
    ensures Flat(store, cs[..n]) <= Flat(store, cs)
  {
    if n != 0 {
      assert cs[..n][1..] == cs[1..][..n - 1];
      FlatCut(store, cs[1..], n - 1);
    }
  }

  /** The file is exactly as many clusters long as its size and the inode need. */
  ghost predicate Filled(p: Inode, cb: nat) {
    0 < cb && p.count == Quot(p.size + INODE_BYTES - 1, cb) + 1
  }

  /** The clusters hold the 128 bytes of the inode and those of the file, and no cluster is empty. */
  lemma FilledIs(p: Inode, cb: nat)
    requires 0 < cb
    ensures Filled(p, cb) <==> (p.count - 1) * cb < p.size + 128 <= p.count * cb
  {
    var a := p.size + 127;
    QuotRem(a, cb);
    assert Quot(a, cb) * cb <= a < (Quot(a, cb) + 1) * cb;
    if (p.count - 1) * cb < p.size + 128 <= p.count * cb {
      DivModIs(a, cb, p.count - 1, a - (p.count - 1) * cb);
    }
  }

  /** The file is that long, or it has been deleted. */
  ghost predicate InStep(p: Inode, cb: nat) {
    p.count == 0 || Filled(p, cb)
  }

  /** All files are, and those that are open have not been deleted. */
  ghost predicate AllInStep(v: Snapshot, cb: nat) {
    && (forall f :: 0 <= f < |v.inodes| ==> InStep(v.inodes[f], cb))
    && (forall h :: 0 <= h < |v.files| ==> v.files[h].pf < |v.inodes| && v.inodes[v.files[h].pf].count != 0)
  }

  lemma DeletedInStep(v: Snapshot, v': Snapshot, h: nat, cb: nat)
    requires AllInStep(v, cb) && h < |v.files| && v.files[h].pf < |v.inodes|
    requires forall i :: 0 <= i < |v.files| && i != h ==> v.files[i].pf != v.files[h].pf
    requires v'.inodes == v.inodes[v.files[h].pf := v.inodes[v.files[h].pf].(count := 0)] && v'.files == Dropped(v.files, h)
    ensures AllInStep(v', cb)
  {}

  ghost predicate HasContent(store: seq<seq<Byte>>, p: Inode, ch: Chain, cb: nat) {
    Good(store, ch.cs, cb) && |ch.cs| == p.count && Filled(p, cb)
  }

  lemma ContentFits(store: seq<seq<Byte>>, p: Inode, ch: Chain, cb: nat)
    requires HasContent(store, p, ch, cb)
    ensures INODE_BYTES + p.size <= |Flat(store, ch.cs)|
  {
    FlatLength(store, ch.cs, cb, p.size + INODE_BYTES - 1);
  }

  /** The bytes of a file. */
  ghost function Content(store: seq<seq<Byte>>, p: Inode, ch: Chain, cb: nat): (s: seq<Byte>)
    requires HasContent(store, p, ch, cb)
    ensures |s| == p.size
  {
    ContentFits(store, p, ch, cb);
    Flat(store, ch.cs)[INODE_BYTES..INODE_BYTES + p.size]
  }

  /** The bytes bs written over s from position o on, which may be its end. */
  ghost function Overwrite(s: seq<Byte>, o: nat, bs: seq<Byte>): (r: seq<Byte>)
    requires o <= |s|
    ensures |r| == if |s| < o + |bs| then o + |bs| else |s|
  {
    s[..o] + bs + if o + |bs| < |s| then s[o + |bs|..] else []
  }

  lemma OverwriteTwice(s: seq<Byte>, o: nat, a: seq<Byte>, b: seq<Byte>)
    requires o <= |s|
    ensures Overwrite(Overwrite(s, o, a), o + |a|, b) == Overwrite(s, o, a + b)
  {}

  lemma {:induction false} QuotMono(a: nat, b: nat, d: nat)
    requires a <= b && 0 < d
    ensures Quot(a, d) <= Quot(b, d)
  {
    if d <= a {
      QuotMono(a - d, b - d, d);
    }
  }

  /** A step forward within the same cluster. */
  lemma {:induction false} QuotStep(a: nat, n: nat, d: nat)
    requires 0 < d && Rem(a, d) + n < d
    ensures Quot(a + n, d) == Quot(a, d) && Rem(a + n, d) == Rem(a, d) + n
  {
    if d <= a {
      QuotStep(a - d, n, d);
    }
  }

  lemma {:induction false} QuotNext(a: nat, d: nat)
    requires 0 < d
    ensures Quot(a + d, d) == Quot(a, d) + 1
    ensures Quot(a + 1, d) <= Quot(a, d) + 1
    ensures Quot(a + 1, d) == Quot(a, d) + 1 ==> Rem(a + 1, d) == 0
  {
    if d <= a {
      QuotNext(a - d, d);
    }
  }

  /** Where a byte of the file is: its cluster and its position there, and how many bytes follow in place. */
  lemma ReadPiece(store: seq<seq<Byte>>, p: Inode, ch: Chain, cb: nat, offset: nat, n: nat)
    requires HasContent(store, p, ch, cb) && offset + n <= p.size && 0 < n
    requires Rem(offset + INODE_BYTES, cb) + n <= cb
    ensures var k, r := Quot(offset + INODE_BYTES, cb), Rem(offset + INODE_BYTES, cb);
      k < |ch.cs| && Content(store, p, ch, cb)[offset..offset + n] == store[ch.cs[k]][r..r + n]
  {
    ContentFits(store, p, ch, cb);
    FlatLength(store, ch.cs, cb, offset + INODE_BYTES);
    FlatSlice(store, ch.cs, cb, offset + INODE_BYTES, n);
    SliceOfSlice(Flat(store, ch.cs), INODE_BYTES, p.size, offset, n);
  }

  /** On disk: byte i of a file is byte i + 128 of its clusters, behind the inode. */
  lemma ByteOnDisk(store: seq<seq<Byte>>, p: Inode, ch: Chain, cb: nat, i: nat)
    requires HasContent(store, p, ch, cb) && 0 < cb && i < p.size
    ensures var k, r := (i + 128) / cb, (i + 128) % cb;
      k < |ch.cs| && ch.cs[k] < |store| && r < |store[ch.cs[k]]| && Content(store, p, ch, cb)[i] == store[ch.cs[k]][r]
  {
    QuotRem(i + 128, cb);
    ReadPiece(store, p, ch, cb, i, 1);
    var k, r := (i + 128) / cb, (i + 128) % cb;
    assert Content(store, p, ch, cb)[i..i + 1] == [Content(store, p, ch, cb)[i]];
    assert store[ch.cs[k]][r..r + 1] == [store[ch.cs[k]][r]];
  }

  lemma SliceOfSlice(s: seq<Byte>, a: nat, size: nat, offset: nat, n: nat)
    requires a + size <= |s| && offset + n <= size
    ensures s[a..a + size][offset..offset + n] == s[offset + a..offset + a + n]
  {
    var t, r := s[a..a + size][offset..offset + n], s[offset + a..offset + a + n];
    assert |t| == |r| == n && forall i :: 0 <= i < n ==> t[i] == r[i];
  }

  /** What has been read and the next piece. */
  lemma ReadOn(s: seq<Byte>, start: nat, offset: nat, data: seq<Byte>, piece: seq<Byte>)
    requires offset == start + |data| && offset + |piece| <= |s| && piece == s[offset..offset + |piece|]
    requires data != [] ==> data == s[start..offset]
    ensures data + piece == s[start..offset + |piece|]
  {}

  /** A position in the file or at its end is in one of its clusters, or in the one to be appended. */
  lemma WhereToWrite(p: Inode, cb: nat, offset: nat)
    requires Filled(p, cb) && offset <= p.size
    ensures Quot(offset + INODE_BYTES, cb) <= p.count
    ensures Quot(offset + INODE_BYTES, cb) == p.count ==> offset == p.size && Rem(offset + INODE_BYTES, cb) == 0
  {
    var last := p.size + INODE_BYTES - 1;
    QuotNext(last, cb);
    if offset < p.size {
      QuotMono(offset + INODE_BYTES, last, cb);
    }
  }

  /** The inode after n bytes have been written at `offset`. */
  function SizeAfter(size: nat, offset: nat, n: nat): nat {
    if offset + n >= size then offset + n else size
  }

  /** The length stays in step with the size. */
  lemma FilledAfter(p: Inode, cb: nat, offset: nat, n: nat) returns (p': Inode)
    requires Filled(p, cb) && offset <= p.size && 0 < n && Rem(offset + INODE_BYTES, cb) + n <= cb
    ensures var k := Quot(offset + INODE_BYTES, cb);
      && p' == p.(size := SizeAfter(p.size, offset, n), count := if k < p.count then p.count else p.count + 1)
      && k < p'.count && Filled(p', cb)
  {
    var k := Quot(offset + INODE_BYTES, cb);
    p' := p.(size := SizeAfter(p.size, offset, n), count := if k < p.count then p.count else p.count + 1);
    WhereToWrite(p, cb, offset);
    QuotStep(offset + INODE_BYTES, n - 1, cb);
    if offset + n >= p.size {
      QuotMono(p.size + INODE_BYTES - 1, offset + n + INODE_BYTES - 1, cb);
    }
  }

  /** The clusters of a grown chain begin with those of the old one. */
  lemma FlatGrown(store: seq<seq<Byte>>, store1: seq<seq<Byte>>, cs: seq<nat>, cs': seq<nat>)
    requires forall k :: 0 <= k < |cs| ==> cs[k] < |store| && cs[k] < |store1| && store1[cs[k]] == store[cs[k]]
    requires forall k :: 0 <= k < |cs'| ==> cs'[k] < |store1|
    requires cs <= cs'
    ensures Flat(store, cs) <= Flat(store1, cs')
  {
    FlatSame(store, store1, cs);
    assert cs'[..|cs|] == cs;
    FlatCut(store1, cs', |cs|);
  }

  /** The bytes of the file after a piece has been written, in its clusters or in one just appended. */
  lemma ContentWritten(store: seq<seq<Byte>>, store1: seq<seq<Byte>>, store': seq<seq<Byte>>, p: Inode, p': Inode,
                       ch: Chain, ch': Chain, cb: nat, offset: nat, bytes: seq<Byte>)
    requires HasContent(store, p, ch, cb) && HasContent(store1, p', ch', cb) && offset <= p.size && ch.cs <= ch'.cs
    requires p'.size == SizeAfter(p.size, offset, |bytes|)
    requires forall k :: 0 <= k < |ch.cs| ==> store1[ch.cs[k]] == store[ch.cs[k]]
    requires var k, r := Quot(offset + INODE_BYTES, cb), Rem(offset + INODE_BYTES, cb);
      && k < |ch'.cs| && r + |bytes| <= cb
      && (forall i :: 0 <= i < |ch'.cs| && i != k ==> ch'.cs[i] != ch'.cs[k])
      && store' == store1[ch'.cs[k] := Splice(store1[ch'.cs[k]], r, bytes)]
    ensures HasContent(store', p', ch', cb)
    ensures Content(store', p', ch', cb) == Overwrite(Content(store, p, ch, cb), offset, bytes)
  {
    var pos := offset + INODE_BYTES;
    FlatWrite(store1, store', ch'.cs, cb, pos, bytes);
    FlatGrown(store, store1, ch.cs, ch'.cs);
    ContentFits(store, p, ch, cb);
    ContentFits(store', p', ch', cb);
    SpliceIsOverwrite(Flat(store, ch.cs), Flat(store1, ch'.cs), p.size, offset, bytes);
  }

  lemma SpliceIsOverwrite(a: seq<Byte>, b: seq<Byte>, size: nat, offset: nat, bytes: seq<Byte>)
    requires a <= b && INODE_BYTES + size <= |a| && offset <= size && INODE_BYTES + offset + |bytes| <= |b|
    ensures var size' := SizeAfter(size, offset, |bytes|);
      && INODE_BYTES + size' <= |b|
      && Splice(b, offset + INODE_BYTES, bytes)[INODE_BYTES..INODE_BYTES + size']
         == Overwrite(a[INODE_BYTES..INODE_BYTES + size], offset, bytes)
  {}

  /** The bytes of all files, file f aside, are the same. */
  ghost predicate SameBytes(f: int, v: Snapshot, v': Snapshot, cb: nat) {
    && |v.inodes| == |v.chains| == |v'.inodes| == |v'.chains|
    && forall g :: 0 <= g < |v.inodes| && g != f && HasContent(v.store, v.inodes[g], v.chains[g], cb) ==>
      HasContent(v'.store, v'.inodes[g], v'.chains[g], cb)
      && Content(v'.store, v'.inodes[g], v'.chains[g], cb) == Content(v.store, v.inodes[g], v.chains[g], cb)
  }

  lemma SameBytesTwice(f: int, v: Snapshot, v1: Snapshot, v2: Snapshot, cb: nat)
    requires SameBytes(f, v, v1, cb) && SameBytes(f, v1, v2, cb)
    ensures SameBytes(f, v, v2, cb)
  {}

  /** The bytes of a file none of whose clusters has changed. */
  lemma ContentSame(store: seq<seq<Byte>>, store': seq<seq<Byte>>, p: Inode, ch: Chain, cb: nat)
    requires HasContent(store, p, ch, cb) && |store'| == |store|
    requires forall k :: 0 <= k < |ch.cs| ==> store'[ch.cs[k]] == store[ch.cs[k]]
    ensures HasContent(store', p, ch, cb) && Content(store', p, ch, cb) == Content(store, p, ch, cb)
  {
    FlatSame(store, store', ch.cs);
  }

  /** The bytes of a file that keeps its clusters, when only the bitmap is written. */
  lemma ContentOffMap(v: Snapshot, store': seq<seq<Byte>>, ly: Layout, cb: nat, g: nat)
    requires Owned(v.owner, v.chains) && ReservedOk(v.owner, ly) && g < |v.chains| == |v.inodes|
    requires OnlyBitmap(v.store, store', ly) && HasContent(v.store, v.inodes[g], v.chains[g], cb)
    ensures HasContent(store', v.inodes[g], v.chains[g], cb)
    ensures Content(store', v.inodes[g], v.chains[g], cb) == Content(v.store, v.inodes[g], v.chains[g], cb)
  {
    forall k | 0 <= k < |v.chains[g].cs|
      ensures store'[v.chains[g].cs[k]] == v.store[v.chains[g].cs[k]]
    {
      assert OwnsData(v.owner, v.chains, g, k);
    }
    ContentSame(v.store, store', v.inodes[g], v.chains[g], cb);
  }

  /** The bytes of a file cut to a smaller size. */
  lemma ContentCut(store: seq<seq<Byte>>, store': seq<seq<Byte>>, p: Inode, ch: Chain, ch': Chain, cb: nat, size: nat)
    requires HasContent(store, p, ch, cb) && size <= p.size && |store'| == |store|
    requires forall k :: 0 <= k < |ch.cs| ==> store'[ch.cs[k]] == store[ch.cs[k]]
    requires |ch'.cs| == Quot(size + INODE_BYTES - 1, cb) + 1 && |ch'.cs| <= |ch.cs| && ch'.cs == ch.cs[..|ch'.cs|]
    ensures var p' := p.(size := size, count := |ch'.cs|);
      HasContent(store', p', ch', cb) && Content(store', p', ch', cb) == Content(store, p, ch, cb)[..size]
  {
    var p' := p.(size := size, count := |ch'.cs|);
    FlatSame(store, store', ch.cs);
    FlatCut(store', ch.cs, |ch'.cs|);
    ContentFits(store', p', ch', cb);
    ContentFits(store, p, ch, cb);
  }

  /** How many free clusters it takes to make a chain of n data and q indirect clusters `target` data
      clusters long. */
  ghost function Cost(n: nat, q: nat, m: nat, target: nat): nat
    decreases target - n
  {
    if target <= n then 0 else if n == Start(q, m) then 2 + Cost(n + 1, q + 1, m, target) else 1 + Cost(n + 1, q, m, target)
  }

  /** Growing from n clusters to `target` takes as many clusters as there are more, and the indirect clusters that it then
      needs beyond the q there are. */
  lemma {:induction false} CostIs(n: nat, q: nat, m: nat, target: nat) returns (q': nat)
    requires 0 < m && n <= target && n <= 16 + q * m && (0 < q ==> 16 + (q - 1) * m < n)
    ensures target <= 16 + q' * m && (0 < q' ==> 16 + (q' - 1) * m < target)
    ensures Cost(n, q, m, target) == (target - n) + (q' - q)
    decreases target - n
  {
    StartIs(q, m);
    q' := q;
    if n < target {
      if n == 16 + q * m {
        assert (q + 1) * m == q * m + m;
        q' := CostIs(n + 1, q + 1, m, target);
      } else {
        q' := CostIs(n + 1, q, m, target);
      }
    }
  }

  lemma CostStep(n: nat, q: nat, m: nat, target: nat)
    requires n < target
    ensures Cost(n, q, m, target) == if n == Start(q, m) then 2 + Cost(n + 1, q + 1, m, target) else 1 + Cost(n + 1, q, m, target)
  {}

  lemma WhereToRead(p: Inode, cb: nat, offset: nat)
    requires Filled(p, cb) && offset < p.size
    ensures Quot(offset + INODE_BYTES, cb) < p.count
  {
    QuotMono(offset + INODE_BYTES, p.size + INODE_BYTES - 1, cb);
  }

  /** The file pointer has no part in the map of a file. */
  lemma PointerMoved(v: Snapshot, m: nat, h: nat, pointer: nat)
    requires FilesOk(v, m) && h < |v.files|
    ensures FilesOk(v.(files := v.files[h := v.files[h].(pointer := pointer)]), m)
  {
    var files' := v.files[h := v.files[h].(pointer := pointer)];
    forall i | 0 <= i < |files'|
      ensures files'[i].pf < |v.chains| && CursorOk(files'[i], v.chains[files'[i].pf], m)
    {
      if files'[i].ifirst != 0 {
        var j :| CursorAt(v.files[i], v.chains[v.files[i].pf], m, j);
        assert CursorAt(files'[i], v.chains[files'[i].pf], m, j);
      }
    }
  }

  /** Only file f has changed: its inode, its chain, clusters that belong to it, and the bitmap. No cluster
      has changed its owner, but free ones may have been given to f. */
  ghost predicate OnlyFile(f: nat, v: Snapshot, v': Snapshot, ly: Layout) {
    && f < |v.inodes| == |v.chains| == |v'.inodes| == |v'.chains|
    && |v'.store| == |v.store| && |v'.owner| == |v.owner| && |v'.files| == |v.files|
    && (forall g :: 0 <= g < |v.inodes| && g != f ==> v'.inodes[g] == v.inodes[g] && v'.chains[g] == v.chains[g])
    && v.chains[f].cs <= v'.chains[f].cs
    && (forall d :: 0 <= d < |v.store| && v'.store[d] != v.store[d] ==> InMap(ly, d) || (d < |v'.owner| && Of(v'.owner[d], f)))
    && (forall d :: 0 <= d < |v.owner| && v'.owner[d] != v.owner[d] ==> v.owner[d] == Unowned && Of(v'.owner[d], f))
    && (forall h :: 0 <= h < |v.files| ==> v'.files[h].pf == v.files[h].pf && v'.files[h].pointer == v.files[h].pointer)
  }

  lemma OnlyFileTwice(f: nat, v: Snapshot, v1: Snapshot, v2: Snapshot, ly: Layout)
    requires OnlyFile(f, v, v1, ly) && OnlyFile(f, v1, v2, ly)
    ensures OnlyFile(f, v, v2, ly)
  {}

  lemma GrownOnlyFile(f: nat, c: nat, linked: bool, v: Snapshot, v': Snapshot, ly: Layout)
    requires Grown(f, c, linked, v, v', ly)
    ensures OnlyFile(f, v, v', ly)
  {}

  /** Growing changes no data cluster. */
  lemma GrownKeepsData(f: nat, c: nat, linked: bool, v: Snapshot, v': Snapshot, ly: Layout, k: nat)
    requires Grown(f, c, linked, v, v', ly) && Owned(v.owner, v.chains) && ReservedOk(v.owner, ly)
    requires k < |v.chains[f].cs| && v.chains[f].cs[k] < |v.store|
    ensures v'.store[v.chains[f].cs[k]] == v.store[v.chains[f].cs[k]]
  {
    assert OwnsData(v.owner, v.chains, f, k);
  }

  /** The bytes of the other files are the same. */
  lemma OthersKept(f: nat, v: Snapshot, v': Snapshot, ly: Layout, cb: nat, g: nat)
    requires OnlyFile(f, v, v', ly) && Owned(v'.owner, v'.chains) && ReservedOk(v'.owner, ly)
    requires g < |v.inodes| && g != f && HasContent(v.store, v.inodes[g], v.chains[g], cb)
    ensures HasContent(v'.store, v'.inodes[g], v'.chains[g], cb)
    ensures Content(v'.store, v'.inodes[g], v'.chains[g], cb) == Content(v.store, v.inodes[g], v.chains[g], cb)
  {
    forall k | 0 <= k < |v.chains[g].cs|
      ensures v'.store[v.chains[g].cs[k]] == v.store[v.chains[g].cs[k]]
    {
      assert OwnsData(v'.owner, v'.chains, g, k);
    }
    ContentSame(v.store, v'.store, v.inodes[g], v.chains[g], cb);
  }

  /** A write to a data cluster of file f, and a new size. */
  lemma DataWritten(v: Snapshot, store': seq<seq<Byte>>, ly: Layout, m: nat, f: nat, k: nat, size: nat) returns (v': Snapshot)
    requires FilesOk(v, m) && f < |v.chains| && k < |v.chains[f].cs|
    requires |store'| == |v.store| && forall d :: 0 <= d < |v.store| && d != v.chains[f].cs[k] ==> store'[d] == v.store[d]
    ensures v' == v.(store := store', inodes := v.inodes[f := v.inodes[f].(size := size)])
    ensures FilesOk(v', m) && OnlyFile(f, v, v', ly)
  {
    var ch := v.chains[f];
    v' := v.(store := store', inodes := v.inodes[f := v.inodes[f].(size := size)]);
    assert OwnsData(v.owner, v.chains, f, k);
    forall j | 0 <= j < |ch.ics| && ch.ics[j] < |v.store|
      ensures store'[ch.ics[j]] == v.store[ch.ics[j]]
    {
      assert OwnsIndirect(v.owner, v.chains, f, j);
    }
    DescribesKept(v.store, store', v.inodes[f], ch, m);
    assert v.chains[f := ch] == v.chains;
    FilesAfter(v, v', m, f, v.inodes[f].(size := size), ch);
  }

  /** A data cluster occurs once in its file. */
  lemma DataApart(owner: seq<Owner>, chains: seq<Chain>, f: nat, k: nat)
    requires Owned(owner, chains) && f < |chains| && k < |chains[f].cs|
    ensures forall i :: 0 <= i < |chains[f].cs| && i != k ==> chains[f].cs[i] != chains[f].cs[k]
  {
    assert OwnsData(owner, chains, f, k);
    forall i | 0 <= i < |chains[f].cs|
      ensures i != k ==> chains[f].cs[i] != chains[f].cs[k]
    {
      assert OwnsData(owner, chains, f, i);
    }
  }

  function Zeros(n: nat): (z: seq<Byte>)
    ensures |z| == n && forall i :: 0 <= i < n ==> z[i] == 0
  {
    seq(n, i => 0)
  }

  /** The bytes from a on up to b are there, and zero. */
  ghost predicate ZeroBetween(s: seq<Byte>, a: int, b: int) {
    forall i :: 0 <= a <= i < b ==> i < |s| && s[i] == 0
  }

  /** What a write of bs at position p makes of a file: past its end the gap is filled with zeros. */
  ghost function WrittenAt(s: seq<Byte>, p: nat, bs: seq<Byte>): (r: seq<Byte>)
    ensures p + |bs| <= |r| && ZeroBetween(r, |s|, p)
  {
    if p <= |s| then Overwrite(s, p, bs) else s + Zeros(p - |s|) + bs
  }

  /** The file with zeros up to position p, if it ends before. */
  ghost function Padded(s: seq<Byte>, p: nat): seq<Byte> {
    if |s| < p then Overwrite(s, |s|, Zeros(p - |s|)) else s
  }

  lemma PaddedThenWritten(s: seq<Byte>, p: nat, bs: seq<Byte>)
    ensures p <= |Padded(s, p)| && Overwrite(Padded(s, p), p, bs) == WrittenAt(s, p, bs)
  {}

  /** What truncating or extending to n bytes makes of a file. */
  ghost function Resized(s: seq<Byte>, n: nat): (r: seq<Byte>)
    ensures |r| == n && ZeroBetween(r, |s|, n)
  {
    if n <= |s| then s[..n] else s + Zeros(n - |s|)
  }

  lemma ExtendedByZeros(s: seq<Byte>, n: nat)
    requires |s| <= n
    ensures Overwrite(s, |s|, Zeros(n - |s|)) == Resized(s, n)
  {}

  /** Shrinking and extending again gives the prefix followed by zeros: no old bytes come back. */
  lemma ShrinkThenExtend(s: seq<Byte>, a: nat, b: nat)
    requires a <= |s| && a <= b
    ensures var r := Resized(Resized(s, a), b); r[..a] == s[..a] && |r| == b && ZeroBetween(r, a, b)
  {}

  /** The size has no part in the map of a file. */
  lemma SizeChanged(v: Snapshot, m: nat, f: nat, size: nat)
    requires FilesOk(v, m) && f < |v.inodes|
    ensures FilesOk(v.(inodes := v.inodes[f := v.inodes[f].(size := size)]), m)
  {
    assert Describes(v.store, v.inodes[f], v.chains[f], m);
    forall j | 0 <= j < |v.chains[f].ics|
      ensures BlockOk(v.store, v.chains[f], m, j)
    {}
  }

  /** The bytes of a file, when no cluster of a file is written. */
  lemma ContentUntouched(v: Snapshot, store': seq<seq<Byte>>, m: nat, cb: nat, g: nat)
    requires FilesOk(v, m) && NoneOwned(v.store, store', v.owner) && g < |v.chains|
    requires HasContent(v.store, v.inodes[g], v.chains[g], cb)
    ensures HasContent(store', v.inodes[g], v.chains[g], cb)
    ensures Content(store', v.inodes[g], v.chains[g], cb) == Content(v.store, v.inodes[g], v.chains[g], cb)
  {
    forall k | 0 <= k < |v.chains[g].cs|
      ensures store'[v.chains[g].cs[k]] == v.store[v.chains[g].cs[k]]
    {
      assert OwnsData(v.owner, v.chains, g, k);
    }
    ContentSame(v.store, store', v.inodes[g], v.chains[g], cb);
  }
}

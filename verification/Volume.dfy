/** A mounted LEAN volume: buffer cache, allocation bitmap, inodes and open files. The ghost fields are the
    logical contents of all clusters, the owner of every cluster and the clusters of every file. The invariants
    build on one another: the cache agrees with the contents, the bitmap and its counter with the owners, the
    inodes and the cached positions with the files, and the lengths of the files with their sizes. */
module Volume {
  import opened BinIndex
  import opened BitWords
  import opened FsWords
  import opened FsCache
  import opened FsBitmap
  import opened FsOwner
  import opened FsMap
  import opened FsContent

  /** The fields of the superblock in use here, and the rest of its sector. */
  datatype SuperBlock = SuperBlock(backup: nat, clusters: nat, free: nat, bitmap: nat, rest: seq<Byte>)

  /** The superblock as it is on disk. */
  function Image(sb: SuperBlock): (r: seq<Byte>)
    requires 512 <= |sb.rest| && sb.backup < WORD && sb.clusters < WORD && sb.free < WORD && sb.bitmap < WORD
    ensures |r| == |sb.rest|
  {
    WriteWord(WriteWord(WriteWord(WriteWord(sb.rest, 19, sb.backup), 20, sb.clusters), 21, sb.free), 22, sb.bitmap)
  }

  lemma ImageWords(sb: SuperBlock)
    requires 512 <= |sb.rest| && sb.backup < WORD && sb.clusters < WORD && sb.free < WORD && sb.bitmap < WORD
    ensures ReadWord(Image(sb), 19) == sb.backup && ReadWord(Image(sb), 20) == sb.clusters
    ensures ReadWord(Image(sb), 21) == sb.free && ReadWord(Image(sb), 22) == sb.bitmap
    ensures forall k: nat :: 4 * k + 4 <= |sb.rest| && !(19 <= k <= 22) ==> ReadWord(Image(sb), k) == ReadWord(sb.rest, k)
  {
    var d0 := WriteWord(sb.rest, 19, sb.backup);
    var d1 := WriteWord(d0, 20, sb.clusters);
    var d2 := WriteWord(d1, 21, sb.free);
    forall k: nat | 4 * k + 4 <= |sb.rest|
      ensures ReadWord(d0, k) == if k == 19 then sb.backup else ReadWord(sb.rest, k)
      ensures ReadWord(d1, k) == if k == 20 then sb.clusters else ReadWord(d0, k)
      ensures ReadWord(d2, k) == if k == 21 then sb.free else ReadWord(d1, k)
      ensures ReadWord(Image(sb), k) == if k == 22 then sb.bitmap else ReadWord(d2, k)
    {
      ReadWritten(sb.rest, 19, sb.backup, k);
      ReadWritten(d0, 20, sb.clusters, k);
      ReadWritten(d1, 21, sb.free, k);
      ReadWritten(d2, 22, sb.bitmap, k);
    }
  }

  lemma TimesFour(q: nat, n: nat, s: nat)
    requires s == 4 * q
    ensures (s * n) % 4 == 0
  {
    assert s * n == 4 * (q * n);
  }

  lemma SizeOfCluster(sectorSize: nat, sectors: nat)
    requires 512 <= sectorSize && sectorSize % 4 == 0 && 1 <= sectors
    ensures sectorSize * sectors == 4 * (sectorSize * sectors / 4) && sectorSize <= sectorSize * sectors
    ensures if sectors == 1 then sectorSize * sectors == sectorSize else 2 * sectorSize <= sectorSize * sectors
  {
    MulMono(1, sectors, sectorSize);
    if sectors != 1 {
      MulMono(2, sectors, sectorSize);
    }
    TimesFour(sectorSize / 4, sectors, sectorSize);
  }

  class Volume {
    const sectorBytes: nat
    const sectorsPerCluster: nat
    const wordsPerCluster: nat
    const pointersPerCluster: nat
    const clusterBytes: nat
    var sb: SuperBlock
    var buffers: seq<Buffer>
    var bufferAccess: nat
    var dev: seq<seq<Byte>>
    var inodes: seq<Inode>
    var files: seq<File>
    ghost var store: seq<seq<Byte>>
    ghost var chains: seq<Chain>
    ghost var owner: seq<Owner>

    ghost predicate Geometry()
      reads `sb
    {
      && 512 <= sectorBytes == |sb.rest| && clusterBytes == 4 * wordsPerCluster && wordsPerCluster == pointersPerCluster + 1
      && (if sectorsPerCluster == 1 then clusterBytes == sectorBytes else 2 * sectorBytes <= clusterBytes)
      && sb.backup < WORD && sb.clusters < WORD && sb.free < WORD && sb.bitmap < WORD
    }

    /** leanfs_mount: the geometry from the superblock and no valid buffer, on a device whose contents are in
        order; the ghost parameters say what its clusters are for. */
    constructor Mount(sectorSize: nat, sectors: nat, super: SuperBlock, device: seq<seq<Byte>>, numBuffers: nat,
                      nodes: seq<Inode>, ghost clusters: seq<Chain>, ghost owners: seq<Owner>)
      requires 512 <= sectorSize == |super.rest| && sectorSize % 4 == 0 && 1 <= sectors && 2 <= numBuffers
      requires super.backup < WORD && super.clusters < WORD && super.free < WORD && super.bitmap < WORD
      requires |owners| == super.clusters && super.free == CountFree(owners, |owners|)
      requires var words := sectorSize * sectors / 4;
        && 0 < words && Tracks(device, super.bitmap, words, owners)
        && (if sectors == 1 then 1 else 0) < super.clusters <= |device|
        && var superCluster := if sectors == 1 then 1 else 0;
        && var ly := Layout(super.bitmap, super.bitmap + MapLength(super.clusters, words), superCluster, super.backup);
        && ReservedOk(owners, ly) && !InMap(ly, superCluster)
        && FilesOk(Snapshot(device, nodes, clusters, [], owners), words - 1)
      requires forall f :: 0 <= f < |nodes| ==> InStep(nodes[f], sectorSize * sectors)
      ensures Ready() && files == [] && dev == store == device && sb == super && inodes == nodes && chains == clusters
      ensures clusterBytes == sectorSize * sectors && owner == owners
    {
      SizeOfCluster(sectorSize, sectors);
      sectorBytes, sectorsPerCluster, clusterBytes := sectorSize, sectors, sectorSize * sectors;
      wordsPerCluster, pointersPerCluster := sectorSize * sectors / 4, sectorSize * sectors / 4 - 1;
      sb, dev, inodes, files := super, device, nodes, [];
      buffers, bufferAccess := seq(numBuffers, i => Buffer(false, false, 0, 0, [])), 0;
      store, chains, owner := device, clusters, owners;
    }

    /** take_file: a new channel to file f, at its start. */
    method TakeFile(f: nat) returns (h: nat)
      requires Ready() && f < |inodes| && inodes[f].count != 0
      modifies `files
      ensures Ready() && h == |old(files)| && files == old(files) + [File(f, 0, 0, 0)]
    {
      h := |files|;
      files := files + [File(f, 0, 0, 0)];
    }

    /** The cluster that holds sector 1, the superblock, and where in it. */
    function SuperCluster(): nat {
      if sectorsPerCluster == 1 then 1 else 0
    }

    function SuperOffset(): nat {
      if sectorsPerCluster == 1 then 0 else sectorBytes
    }

    /** The buffers, the device and the contents agree. The superblock's cluster is not buffered. */
    ghost predicate Cached()
      reads `sb, `buffers, `bufferAccess, `dev, `store
    {
      Geometry() && CacheOk(buffers, bufferAccess, dev, store, clusterBytes, SuperCluster())
    }

    /** search_for_buffer */
    method Search(c: nat) returns (b: int)
      ensures b == NONE || Holds(buffers, b, c)
      ensures b == NONE ==> !Buffered(buffers, c)
    {
      var k := 0;
      while k < |buffers|
        invariant 0 <= k <= |buffers|
        invariant forall i :: 0 <= i < k ==> !Holds(buffers, i, c)
      {
        if buffers[k].valid && c == buffers[k].cluster {
          return k;
        }
        k := k + 1;
      }
      return NONE;
    }

    /** find_least_recently_used */
    method FindLeastRecent() returns (lru: nat)
      requires Stamped(buffers, bufferAccess) && buffers != []
      ensures LeastRecent(buffers, lru)
    {
      lru := 0;
      var low := bufferAccess;
      var k := 0;
      while k < |buffers|
        invariant 0 <= k <= |buffers| && lru < |buffers|
        invariant low == bufferAccess || low == buffers[lru].access
        invariant low <= bufferAccess && forall i :: 0 <= i < k ==> low <= buffers[i].access
      {
        if buffers[k].access < low {
          low := buffers[k].access;
          lru := k;
        }
        k := k + 1;
      }
      assert OlderThan(buffers, lru, bufferAccess);
    }

    /** flush_buffer */
    method FlushBuffer(b: nat)
      requires Cached() && b < |buffers|
      modifies `buffers, `dev
      ensures Cached() && buffers == old(buffers)[b := Flushed(old(buffers)[b])]
      ensures dev == Written(old(dev), old(buffers)[b])
      ensures forall c: nat :: Buffered(buffers, c) <==> Buffered(old(buffers), c)
      ensures forall c: nat :: c < |store| && old(dev)[c] == store[c] ==> dev[c] == store[c]
      ensures buffers[b].valid ==> buffers[b].cluster < |dev| && dev[buffers[b].cluster] == store[buffers[b].cluster]
    {
      FlushKeeps(buffers, bufferAccess, dev, store, clusterBytes, SuperCluster(), b);
      if buffers[b].valid || buffers[b].dirty {
        dev := dev[buffers[b].cluster := buffers[b].data];
        buffers := buffers[b := buffers[b].(dirty := false)];
      }
    }

    /** leanfs_readbuf: cluster c in a buffer, the one passed in or the least recently used one if it
        was not in any. */
    method ReadBuf(c: nat, hint: int) returns (b: nat)
      requires Cached() && c < |store| && c != SuperCluster() && NONE <= hint < |buffers|
      modifies `buffers, `bufferAccess, `dev
      ensures Cached() && |buffers| == |old(buffers)| && Holds(buffers, b, c)
      ensures buffers[b].access == bufferAccess == old(bufferAccess) + 1
      ensures forall i :: 0 <= i < |buffers| && i != b ==> buffers[i] == old(buffers)[i]
      ensures if Buffered(old(buffers), c) then Holds(old(buffers), b, c)
              else if hint == NONE then LeastRecent(old(buffers), b) else b == hint
    {
      var found := Search(c);
      if found == NONE {
        if hint == NONE {
          b := FindLeastRecent();
        } else {
          b := hint;
        }
        Load(b, c);
      } else {
        b := found;
      }
      Stamp(b);
    }

    /** Cluster c replaces what is in buffer b. */
    method Load(b: nat, c: nat)
      requires Cached() && c < |store| && c != SuperCluster() && b < |buffers| && !Buffered(buffers, c)
      modifies `buffers, `dev
      ensures Cached() && |buffers| == |old(buffers)| && Holds(buffers, b, c)
      ensures forall i :: 0 <= i < |buffers| && i != b ==> buffers[i] == old(buffers)[i]
    {
      FlushBuffer(b);
      ghost var bufs := LoadKeeps(buffers, bufferAccess, dev, store, clusterBytes, SuperCluster(), b, c);
      buffers := buffers[b := Buffer(true, false, c, buffers[b].access, dev[c])];
    }

    /** Buffer b is the one used last. */
    method Stamp(b: nat)
      requires Cached() && b < |buffers|
      modifies `buffers, `bufferAccess
      ensures Cached() && bufferAccess == old(bufferAccess) + 1
      ensures buffers == old(buffers)[b := old(buffers)[b].(access := bufferAccess)]
    {
      StampKeeps(buffers, bufferAccess, dev, store, clusterBytes, SuperCluster(), b);
      bufferAccess := bufferAccess + 1;
      buffers := buffers[b := buffers[b].(access := bufferAccess)];
    }

    /** leanfs_dirtybuf: marks the buffer, and writes it out at once if asked to. False for a buffer
        without valid contents. */
    method DirtyBuf(b: nat, writeThrough: bool) returns (ok: bool)
      requires Cached() && b < |buffers|
      modifies `buffers, `dev
      ensures Cached() && |buffers| == |old(buffers)| && ok == old(buffers)[b].valid
      ensures if !ok then buffers == old(buffers) else buffers == old(buffers)[b := old(buffers)[b].(dirty := !writeThrough)]
      ensures dev == if ok && writeThrough then Written(old(dev), old(buffers)[b]) else old(dev)
      ensures forall c: nat :: Buffered(buffers, c) <==> Buffered(old(buffers), c)
    {
      ok := buffers[b].valid;
      if ok {
        assert Holds(buffers, b, buffers[b].cluster);
        DirtyKeeps(buffers, bufferAccess, dev, store, clusterBytes, SuperCluster(), b, buffers[b].data, true);
        assert store[buffers[b].cluster := buffers[b].data] == store;
        buffers := buffers[b := buffers[b].(dirty := true)];
        if writeThrough {
          FlushBuffer(b);
        }
      }
    }

    /** A write to the memory of a buffer, without marking it. */
    method Poke(b: nat, data: seq<Byte>)
      requires Cached() && b < |buffers| && buffers[b].valid && |data| == clusterBytes
      modifies `buffers, `store
      ensures Cached() && buffers == old(buffers)[b := old(buffers)[b].(data := data)]
      ensures old(buffers)[b].cluster < |old(store)| && store == old(store)[old(buffers)[b].cluster := data]
      ensures forall c: nat :: Buffered(buffers, c) <==> Buffered(old(buffers), c)
    {
      DirtyKeeps(buffers, bufferAccess, dev, store, clusterBytes, SuperCluster(), b, data, buffers[b].dirty);
      store := store[buffers[b].cluster := data];
      buffers := buffers[b := buffers[b].(data := data)];
    }

    /** A write to a buffer that is marked. */
    method WriteDirty(b: nat, data: seq<Byte>, writeThrough: bool)
      requires Cached() && b < |buffers| && buffers[b].valid && |data| == clusterBytes
      modifies `buffers, `dev, `store
      ensures Cached() && |buffers| == |old(buffers)|
      ensures forall i :: 0 <= i < |buffers| && i != b ==> buffers[i] == old(buffers)[i]
      ensures Holds(buffers, b, old(buffers)[b].cluster) && buffers[b].access == old(buffers)[b].access
      ensures old(buffers)[b].cluster < |old(store)| && store == old(store)[old(buffers)[b].cluster := data]
      ensures buffers[b].dirty == !writeThrough && (!writeThrough ==> dev == old(dev))
      ensures writeThrough ==> old(buffers)[b].cluster < |dev| && dev[old(buffers)[b].cluster] == data
    {
      Poke(b, data);
      var ok := DirtyBuf(b, writeThrough);
    }

    /** leanfs_sync: the superblock goes to its sector and to the backup, and every buffer to the device. */
    method Sync()
      requires Cached() && sb.backup < |store| && sb.backup != SuperCluster()
      modifies `buffers, `bufferAccess, `dev, `store
      ensures Cached() && dev == store
      ensures var c := if clusterBytes == sectorBytes then 1 else 0; var o := if clusterBytes == sectorBytes then 0 else sectorBytes;
        c * clusterBytes + o == 1 * sectorBytes && c < |dev| && o + sectorBytes <= |dev[c]| && dev[c][o..o + sectorBytes] == Image(sb)
      ensures sb.backup < |dev| && 512 <= |dev[sb.backup]| && dev[sb.backup][..512] == Image(sb)[..512]
      ensures SuperCluster() < |old(store)| && SuperOffset() + sectorBytes <= |old(store)[SuperCluster()]|
      ensures sb.backup < |old(store)| && 512 <= |old(store)[sb.backup]|
      ensures store == old(store)[SuperCluster() := Splice(old(store)[SuperCluster()], SuperOffset(), Image(sb))]
                                 [sb.backup := Splice(old(store)[sb.backup], 0, Image(sb)[..512])]
    {
      WriteSuper();
      var b := ReadBuf(sb.backup, NONE);
      assert Holds(buffers, b, sb.backup);
      WriteDirty(b, Splice(buffers[b].data, 0, Image(sb)[..512]), false);
      FlushAll();
    }

    /** Where the superblock's backup is: in a cluster of its own. */
    ghost predicate BackupApart()
      reads `sb, `store
    {
      sb.backup < |store| && sb.backup != SuperCluster() && !InMap(Plan(), sb.backup)
    }

    /** leanfs_sync leaves all files as they are. */
    method SyncFiles()
      requires Ready() && BackupApart()
      modifies `buffers, `bufferAccess, `dev, `store
      ensures Ready() && BackupApart() && dev == store
      ensures OthersSame(NONE, old(Now()))
    {
      Sync();
      Synced(old(Now()));
    }

    /** The superblock and its backup are in no file, and not in the bitmap. */
    lemma Synced(v0: Snapshot)
      requires Cached() && BackupApart() && FilesOk(v0, pointersPerCluster) && AllInStep(v0, clusterBytes)
      requires Tracks(v0.store, sb.bitmap, wordsPerCluster, owner) && ReservedOk(owner, Plan()) && !InMap(Plan(), SuperCluster())
      requires |owner| == sb.clusters <= |store| && sb.free == CountFree(owner, |owner|)
      requires |store| == |v0.store| && Now() == v0.(store := store) && forall c :: 0 <= c < |store| ==> |store[c]| == |v0.store[c]|
      requires forall c: nat :: c < |store| && c != SuperCluster() && c != sb.backup ==> store[c] == v0.store[c]
      ensures Ready() && OthersSame(NONE, v0)
    {
      TracksElsewhere(v0.store, store, sb.bitmap, wordsPerCluster, owner);
      FilesUntouched(v0, store, pointersPerCluster);
      forall g | 0 <= g < |inodes| && HasContent(v0.store, v0.inodes[g], v0.chains[g], clusterBytes)
        ensures HasView(g) && View(g) == Content(v0.store, v0.inodes[g], v0.chains[g], clusterBytes)
      {
        ContentUntouched(v0, store, pointersPerCluster, clusterBytes, g);
      }
    }

    /** leanfs_close: the channel is gone, and those behind it move up. With the last channel to a file that nothing
        links to, all its clusters are freed. With the last channel to a file, the volume is synced. */
    method Close(h: nat, links: nat)
      requires Ready() && h < |files| && BackupApart()
      modifies this
      ensures Ready() && BackupApart() && files == old(files)[..h] + old(files)[h + 1..]
      ensures var f := old(files[h].pf); var last := forall i :: 0 <= i < |old(files)| && i != h ==> old(files)[i].pf != f;
        && (last ==> dev == store) && OthersSame(if last && links == 0 then f else NONE, old(Now()))
        && (if last && links == 0 then Deleted(f, old(Now()), old(sb)) else Kept(old(Now()), old(sb)))
    {
      ghost var f := files[h].pf;
      var last := OnlyChannel(files, h);
      if last && links == 0 {
        DeleteLast(h);
      } else {
        Leave(h);
      }
      if last {
        ghost var v1 := Now();
        SyncFiles();
        SameBytesTwice(if links == 0 then f else NONE, old(Now()), v1, Now(), clusterBytes);
      }
    }

    /** No other channel leads to the file of channel h. */
    predicate OnlyChannel(channels: seq<File>, h: nat)
      requires h < |channels|
    {
      forall i :: 0 <= i < |channels| && i != h ==> channels[i].pf != channels[h].pf
    }

    /** A channel to a file that stays. */
    method Leave(h: nat)
      requires Ready() && h < |files|
      modifies `files
      ensures Ready() && files == Dropped(old(files), h) && OthersSame(NONE, old(Now()))
    {
      FilesDropped(Now(), pointersPerCluster, h);
      files := Dropped(files, h);
    }

    /** All clusters of file f have been freed since v0, and no others. */
    ghost predicate Deleted(f: nat, v0: Snapshot, sb0: SuperBlock)
      reads `sb, `inodes, `chains, `owner
    {
      && f < |v0.inodes| == |v0.chains| && |owner| == |v0.owner|
      && (forall c :: 0 <= c < |owner| ==> owner[c] == if Of(v0.owner[c], f) then Unowned else v0.owner[c])
      && inodes == v0.inodes[f := v0.inodes[f].(count := 0)] && chains == v0.chains[f := Chain([], [])]
      && sb == sb0.(free := sb0.free + |v0.chains[f].cs| + |v0.chains[f].ics|)
    }

    ghost predicate Kept(v0: Snapshot, sb0: SuperBlock)
      reads `sb, `inodes, `chains, `owner
    {
      inodes == v0.inodes && chains == v0.chains && owner == v0.owner && sb == sb0
    }

    /** The last channel to a file that nothing links to. */
    method DeleteLast(h: nat)
      requires Ready() && h < |files| && BackupApart()
      requires OnlyChannel(files, h)
      modifies this
      ensures Ready() && BackupApart() && files == Dropped(old(files), h) && Deleted(old(files[h].pf), old(Now()), old(sb))
      ensures OthersSame(old(files[h].pf), old(Now()))
    {
      ghost var f := files[h].pf;
      DeleteFile(h);
      LastDropped(Now(), pointersPerCluster, h);
      DroppedSame(old(files), files, h);
      files := Dropped(files, h);
      DeletedInStep(old(Now()), Now(), h, clusterBytes);
    }

    /** The superblock is written to the device directly. */
    method WriteSuper()
      requires Cached()
      modifies `dev, `store
      ensures Cached() && SuperCluster() < |old(store)| && SuperOffset() + sectorBytes <= |old(store)[SuperCluster()]|
      ensures store == old(store)[SuperCluster() := Splice(old(store)[SuperCluster()], SuperOffset(), Image(sb))]
    {
      var c := SuperCluster();
      DirectWrite(buffers, bufferAccess, dev, store, clusterBytes, c, SuperOffset(), Image(sb));
      dev := dev[c := Splice(dev[c], SuperOffset(), Image(sb))];
      store := store[c := Splice(store[c], SuperOffset(), Image(sb))];
    }

    method FlushAll()
      requires Cached()
      modifies `buffers, `dev
      ensures Cached() && dev == store
    {
      var k := 0;
      while k < |buffers|
        invariant Cached() && 0 <= k <= |buffers|
        invariant forall i, c: nat :: 0 <= i < k && Holds(buffers, i, c) ==> c < |dev| && dev[c] == store[c]
      {
        ghost var before := buffers;
        FlushBuffer(k);
        assert forall i, c: nat :: Holds(buffers, i, c) <==> Holds(before, i, c);
        k := k + 1;
      }
      AllWritten(buffers, dev, store);
    }

    /** Where the bitmap ends. */
    ghost function MapEnd(): nat
      reads `sb
    {
      sb.bitmap + if wordsPerCluster == 0 then 0 else MapLength(sb.clusters, wordsPerCluster)
    }

    ghost function Plan(): Layout
      reads `sb
    {
      Layout(sb.bitmap, MapEnd(), SuperCluster(), sb.backup)
    }

    /** The bitmap marks exactly the clusters that have an owner, and the superblock counts the others. */
    ghost predicate Based()
      reads `sb, `buffers, `bufferAccess, `dev, `store, `owner
    {
      && Cached() && Tracks(store, sb.bitmap, wordsPerCluster, owner)
      && |owner| == sb.clusters <= |store| && sb.free == CountFree(owner, |owner|)
      && ReservedOk(owner, Plan()) && !InMap(Plan(), SuperCluster())
    }

    /** The bitmap cluster that holds the bit of cluster c. */
    ghost function BitmapClusterOf(c: nat): nat
      reads `sb
    {
      sb.bitmap + if wordsPerCluster == 0 then 0 else Quot(c / 32, wordsPerCluster)
    }

    /** Looks through one word of the bitmap for a clear bit of an existing cluster. */
    static method ScanWord(w: nat, g: nat, n: nat) returns (found: bool, cluster: nat)
      requires w < WORD && 32 * g < n
      ensures SeenWord(w, g, n, found, cluster)
      ensures !found ==> cluster == 32 * g || cluster == n <= 32 * g + 32
    {
      cluster := 32 * g;
      FullWord(w);
      if w != 0xFFFF_FFFF {
        var bit := 0;
        while bit < 32 && cluster < n
          invariant 0 <= bit <= 32 && cluster == 32 * g + bit && cluster <= n
          invariant forall j :: 0 <= j < bit ==> Bit(w, j)
        {
          MaskedBit(w, bit);
          if And(w, Idx2Bit(bit)) == 0 {
            return true, cluster;
          }
          bit, cluster := bit + 1, cluster + 1;
        }
      }
      found := false;
    }

    /** leanfs_bitmap_find_free: the least free cluster; fails exactly when there is none. Buffer `keep`,
        the one used last, still holds its cluster afterwards. */
    method FindFree(ghost keep: int, ghost kept: nat) returns (ok: bool, cluster: nat)
      requires Based() && !InMap(Plan(), kept)
      requires keep != NONE ==> Holds(buffers, keep, kept) && buffers[keep].access == bufferAccess != 0
      modifies `buffers, `bufferAccess, `dev
      ensures Cached() && |buffers| == |old(buffers)|
      ensures if ok then LeastUnowned(owner, cluster) && Buffered(buffers, BitmapClusterOf(cluster))
              else FullTo(owner, |owner|)
      ensures keep != NONE ==> Holds(buffers, keep, kept)
    {
      ok, cluster := false, 0;
      FullCount(owner, |owner|);
      if sb.free != 0 {
        ok, cluster := SearchMap(keep, kept);
      }
    }

    /** The search through the words of all bitmap clusters. */
    method SearchMap(ghost keep: int, ghost kept: nat) returns (ok: bool, cluster: nat)
      requires Based() && !InMap(Plan(), kept)
      requires keep != NONE ==> Holds(buffers, keep, kept) && buffers[keep].access == bufferAccess != 0
      modifies `buffers, `bufferAccess, `dev
      ensures Cached() && |buffers| == |old(buffers)|
      ensures if ok then LeastUnowned(owner, cluster) && Buffered(buffers, BitmapClusterOf(cluster))
              else FullTo(owner, |owner|)
      ensures keep != NONE ==> Holds(buffers, keep, kept)
    {
      ok, cluster := false, 0;
      var b := NONE;
      var bc := sb.bitmap;
      ghost var g := 0;
      while cluster < sb.clusters
        invariant Cached() && |buffers| == |old(buffers)| && sb.bitmap <= bc
        invariant sb.clusters <= cluster || (cluster == 32 * g && FirstWord(g, bc - sb.bitmap, wordsPerCluster))
        invariant FullTo(owner, cluster)
        invariant keep != NONE ==> Holds(buffers, keep, kept) && b != keep
        invariant b == NONE ==> buffers == old(buffers) && bufferAccess == old(bufferAccess)
        invariant NONE <= b < |buffers|
        decreases sb.clusters - cluster
      {
        ok, cluster, b := SearchCluster(bc, b, cluster, g, keep, kept);
        if ok {
          return;
        }
        g, bc := g + wordsPerCluster, bc + 1;
      }
    }

    /** The search through one bitmap cluster, from word g of the bitmap on. */
    method SearchCluster(bc: nat, hint: int, from: nat, ghost g: nat, ghost keep: int, ghost kept: nat)
        returns (ok: bool, cluster: nat, b: nat)
      requires Based() && !InMap(Plan(), kept) && sb.bitmap <= bc && NONE <= hint < |buffers|
      requires from == 32 * g < sb.clusters && FirstWord(g, bc - sb.bitmap, wordsPerCluster) && FullTo(owner, from)
      requires keep != NONE ==>
        Holds(buffers, keep, kept) && hint != keep && (hint == NONE ==> buffers[keep].access == bufferAccess != 0)
      modifies `buffers, `bufferAccess, `dev
      ensures Cached() && |buffers| == |old(buffers)| && b < |buffers|
      ensures keep != NONE ==> Holds(buffers, keep, kept) && b != keep
      ensures if ok then LeastUnowned(owner, cluster) && Buffered(buffers, BitmapClusterOf(cluster))
              else from < cluster && FullTo(owner, cluster) && (cluster >= sb.clusters || cluster == 32 * (g + wordsPerCluster))
    {
      WordAt(store, sb.bitmap, wordsPerCluster, sb.clusters, g, bc - sb.bitmap, 0);
      b := ReadHinted(bc, hint, keep, kept);
      ok, cluster := ScanCluster(b, from, g, bc - sb.bitmap);
    }

    /** Another cluster is read without disturbing buffer `keep`: it is the one used last, or not the
        one passed in. */
    method ReadHinted(c: nat, hint: int, ghost keep: int, ghost kept: nat) returns (b: nat)
      requires Cached() && c < |store| && c != SuperCluster() && NONE <= hint < |buffers|
      requires keep != NONE ==> Holds(buffers, keep, kept) && kept != c
      requires keep != NONE ==> if hint != NONE then hint != keep
                                else buffers[keep].access == bufferAccess != 0 || Buffered(buffers, c)
      modifies `buffers, `bufferAccess, `dev
      ensures Cached() && |buffers| == |old(buffers)| && Holds(buffers, b, c)
      ensures keep != NONE ==> Holds(buffers, keep, kept) && b != keep
    {
      b := ReadBuf(c, hint);
      if keep != NONE && hint == NONE && !Buffered(old(buffers), c) {
        LastIsNotLeast(old(buffers), old(bufferAccess), keep, b);
      }
    }

    /** Looks through bitmap cluster number m, in buffer b, from word g of the bitmap on. */
    method ScanCluster(b: nat, from: nat, ghost g: nat, ghost m: nat) returns (found: bool, cluster: nat)
      requires Cached() && Tracks(store, sb.bitmap, wordsPerCluster, owner) && |owner| == sb.clusters
      requires Holds(buffers, b, sb.bitmap + m) && FullTo(owner, from)
      requires FirstWord(g, m, wordsPerCluster) && from == 32 * g < sb.clusters
      ensures if found then LeastUnowned(owner, cluster) && BitmapClusterOf(cluster) == sb.bitmap + m
              else from < cluster && FullTo(owner, cluster) && (cluster >= sb.clusters || cluster == 32 * (g + wordsPerCluster))
    {
      var k := 0;
      cluster := from;
      ghost var j := 0;
      while k < clusterBytes && cluster < sb.clusters
        invariant k == 4 * j && 0 <= j <= wordsPerCluster && (j == 0 ==> cluster == from) && (0 < j ==> from < cluster)
        invariant sb.clusters <= cluster || cluster == 32 * (g + j)
        invariant FullTo(owner, cluster)
      {
        found, cluster := ScanNext(b, k, cluster, g, m, j);
        if found {
          return;
        }
        k, cluster, j := k + 4, cluster + 32, j + 1;
      }
      found := false;
    }

    /** Looks through word j of that cluster. */
    method ScanNext(b: nat, k: nat, from: nat, ghost g: nat, ghost m: nat, ghost j: nat) returns (found: bool, cluster: nat)
      requires Cached() && Tracks(store, sb.bitmap, wordsPerCluster, owner) && |owner| == sb.clusters
      requires Holds(buffers, b, sb.bitmap + m) && FullTo(owner, from)
      requires FirstWord(g, m, wordsPerCluster) && j < wordsPerCluster && k == 4 * j && from == 32 * (g + j) < sb.clusters
      ensures if found then LeastUnowned(owner, cluster) && BitmapClusterOf(cluster) == sb.bitmap + m
              else from <= cluster && FullTo(owner, cluster + 32) && (cluster >= sb.clusters || cluster == from)
    {
      BitInWord(g + j, 0);
      assert k / 4 == j && from / 32 == g + j;
      var w := ReadWord(buffers[b].data, k / 4);
      found, cluster := ScanWord(w, from / 32, sb.clusters);
      SeenOwners(store, sb.bitmap, wordsPerCluster, owner, g, m, j, w, found, cluster);
    }

    /** Where the bit of cluster c is in a bitmap of n clusters. */
    static method BitAddress(c: nat, bytes: nat, ghost n: nat) returns (bitmapCluster: nat, intOfCluster: nat, bitOfInt: nat)
      requires 0 < bytes && bytes % 4 == 0 && c < n
      ensures bitmapCluster == Quot(c / 32, bytes / 4) < MapLength(n, bytes / 4)
      ensures intOfCluster == Rem(c / 32, bytes / 4) && bitOfInt == c % 32
    {
      ByteAddressing(c, bytes, n);
      bitmapCluster := c / (bytes * 8);
      var bitOfCluster := c % (bytes * 8);
      intOfCluster, bitOfInt := bitOfCluster / 32, bitOfCluster % 32;
    }

    /** leanfs_bitmap_set: marks the cluster as allocated, with owner x, or free, and counts. Buffer
        `keep` is not disturbed, for it was used last or the bitmap cluster is buffered. */
    method BitmapSet(c: nat, allocate: bool, ghost x: Owner, ghost keep: int, ghost kept: nat)
      requires Based() && c < sb.clusters && allocate == (x != Unowned) && owner[c] != Reserved && x != Reserved
      requires keep != NONE ==> Holds(buffers, keep, kept) && kept != BitmapClusterOf(c)
      requires keep != NONE ==> buffers[keep].access == bufferAccess != 0 || Buffered(buffers, BitmapClusterOf(c))
      modifies `buffers, `bufferAccess, `dev, `store, `sb, `owner
      ensures Based() && |buffers| == |old(buffers)| && |store| == |old(store)|
      ensures owner == old(owner)[c := x]
      ensures sb == old(sb).(free := sb.free)
      ensures OnlyBitmap(old(store), store, Plan())
      ensures keep != NONE ==> Holds(buffers, keep, kept)
    {
      var bitmapCluster, intOfCluster, bitOfInt := BitAddress(c, clusterBytes, sb.clusters);
      var b := ReadHinted(sb.bitmap + bitmapCluster, NONE, keep, kept);
      SetBit(b, intOfCluster, bitOfInt, c, allocate, x);
    }

    /** The bitmap cluster of c is in buffer b: its bit is changed if it is different. */
    method SetBit(b: nat, k: nat, bit: nat, c: nat, allocate: bool, ghost x: Owner)
      requires Based() && c < sb.clusters && Holds(buffers, b, BitmapClusterOf(c))
      requires allocate == (x != Unowned) && owner[c] != Reserved && x != Reserved
      requires 0 < wordsPerCluster && k == Rem(c / 32, wordsPerCluster) && bit == c % 32
      modifies `buffers, `dev, `store, `sb, `owner
      ensures Based() && |buffers| == |old(buffers)| && |store| == |old(store)|
      ensures owner == old(owner)[c := x]
      ensures sb == old(sb).(free := sb.free)
      ensures OnlyBitmap(old(store), store, Plan())
      ensures forall i :: 0 <= i < |buffers| && i != b ==> buffers[i] == old(buffers)[i]
    {
      var w := ReadWord(buffers[b].data, k);
      BitIs(store, sb.bitmap, wordsPerCluster, owner, c);
      MaskedBit(w, bit);
      if (And(w, Idx2Bit(bit)) == 0) == allocate {
        ChangeMark(b, k, bit, c, allocate, x);
      } else {
        NewOwner(store, sb.bitmap, wordsPerCluster, owner, c, x);
      }
      owner := owner[c := x];
    }

    /** The bitmap cluster of c is in buffer b: its bit is changed, and counted. */
    method ChangeMark(b: nat, k: nat, bit: nat, c: nat, allocate: bool, ghost x: Owner)
      requires Based() && c < sb.clusters && Holds(buffers, b, BitmapClusterOf(c))
      requires allocate == (x != Unowned) && (owner[c] == Unowned) == allocate
      requires 0 < wordsPerCluster && k == Rem(c / 32, wordsPerCluster) && bit == c % 32
      modifies `buffers, `dev, `store, `sb
      ensures Cached() && |buffers| == |old(buffers)| && |store| == |old(store)|
      ensures Tracks(store, sb.bitmap, wordsPerCluster, owner[c := x])
      ensures sb == old(sb).(free := CountFree(owner[c := x], |owner|))
      ensures OnlyBitmap(old(store), store, Plan())
      ensures forall i :: 0 <= i < |buffers| && i != b ==> buffers[i] == old(buffers)[i]
    {
      CountChange(owner, c, x, |owner|);
      FlipMark(b, k, bit, c, allocate, x);
      sb := sb.(free := if allocate then sb.free - 1 else sb.free + 1);
    }

    method FlipMark(b: nat, k: nat, bit: nat, c: nat, allocate: bool, ghost x: Owner)
      requires Based() && c < sb.clusters && Holds(buffers, b, BitmapClusterOf(c))
      requires allocate == (x != Unowned) && (owner[c] == Unowned) == allocate
      requires 0 < wordsPerCluster && k == Rem(c / 32, wordsPerCluster) && bit == c % 32
      modifies `buffers, `dev, `store
      ensures Cached() && |buffers| == |old(buffers)| && |store| == |old(store)|
      ensures Tracks(store, sb.bitmap, wordsPerCluster, owner[c := x])
      ensures OnlyBitmap(old(store), store, Plan())
      ensures forall i :: 0 <= i < |buffers| && i != b ==> buffers[i] == old(buffers)[i]
    {
      var w := ReadWord(buffers[b].data, k);
      ghost var store' := RemarkOwner(store, sb.bitmap, wordsPerCluster, owner, c, x);
      var data := WriteWord(buffers[b].data, k, Remark(w, bit, allocate));
      assert store' == store[buffers[b].cluster := data];
      WriteDirty(b, data, false);
    }

    /** The state of the files. */
    ghost function Now(): Snapshot
      reads `store, `inodes, `chains, `files, `owner
    {
      Snapshot(store, inodes, chains, files, owner)
    }

    /** Inodes, indirect clusters, cached positions and owners agree. */
    ghost predicate Mapped()
      reads this
    {
      Based() && FilesOk(Now(), pointersPerCluster)
    }

    /** Where a walk to data cluster k of a chain ends: at the block j that has it, in buffer b, or past
        the last block. */
    ghost predicate Reached(ch: Chain, count: nat, k: nat, icluster: nat, ifirst: nat, b: int, j: nat)
      reads `buffers, `bufferAccess
    {
      var m := pointersPerCluster;
      && j <= |ch.ics| && ifirst == Start(j, m) <= k
      && (j < |ch.ics| ==> k < ifirst + m && icluster == ch.ics[j])
      && (j < |ch.ics| ==> Holds(buffers, b, ch.ics[j]) && buffers[b].access == bufferAccess != 0)
      && (j == |ch.ics| ==> k == count == ifirst)
      && (j == |ch.ics| != 0 ==> Holds(buffers, b, ch.ics[j - 1]) && buffers[b].access == bufferAccess != 0)
    }

    /** The walk along the chain of indirect clusters, from its cluster number j0. */
    method WalkChain(p: Inode, k: nat, icluster0: nat, ifirst0: nat, hint: int, ghost ch: Chain, ghost j0: nat)
        returns (icluster: nat, ifirst: nat, b: int, ghost j: nat)
      requires Cached() && NONE <= hint < |buffers| && Describes(store, p, ch, pointersPerCluster)
      requires forall i :: 0 <= i < |ch.ics| ==> ch.ics[i] < |store| && ch.ics[i] != SuperCluster()
      requires MAX_DIRECT_CLUSTER < k <= p.count && ifirst0 == Start(j0, pointersPerCluster) <= k
      requires if ch.ics == [] then j0 == 0 else j0 < |ch.ics| && icluster0 == ch.ics[j0]
      modifies `buffers, `bufferAccess, `dev
      ensures Cached() && |buffers| == |old(buffers)|
      ensures Reached(ch, p.count, k, icluster, ifirst, b, j) && (|ch.ics| == 0 ==> b == hint)
    {
      ghost var m := pointersPerCluster;
      icluster, ifirst, b, j := icluster0, ifirst0, hint, j0;
      while ifirst < p.count
        invariant Cached() && |buffers| == |old(buffers)| && NONE <= b < |buffers|
        invariant j <= |ch.ics| && ifirst == Start(j, m) <= k
        invariant j < |ch.ics| ==> icluster == ch.ics[j]
        invariant j == |ch.ics| != 0 ==> Holds(buffers, b, ch.ics[j - 1]) && buffers[b].access == bufferAccess != 0
        invariant |ch.ics| == 0 ==> b == hint
        decreases p.count - ifirst
      {
        ChainEnd(ch, m, j);
        b := ReadBuf(icluster, b);
        if k >= ifirst && k < ifirst + pointersPerCluster {
          return;
        }
        ifirst := ifirst + pointersPerCluster;
        assert BlockOk(store, ch, m, j);
        icluster := ReadWord(buffers[b].data, pointersPerCluster);
        j := j + 1;
      }
      ChainEnd(ch, m, j);
    }

    /** The chain of the file of open file h can be followed from its cached position. */
    ghost predicate Readable(h: nat)
      reads this
    {
      && Cached() && h < |files| && files[h].pf < |chains| == |inodes|
      && var ch := chains[files[h].pf];
      && Describes(store, inodes[files[h].pf], ch, pointersPerCluster) && CursorOk(files[h], ch, pointersPerCluster)
      && (forall i :: 0 <= i < |ch.ics| ==> ch.ics[i] < |store| && ch.ics[i] != SuperCluster())
    }

    /** leanfs_fetch_indirect: walks the chain of indirect clusters, from the cached position if that
        is not past the one wanted, to the block of data cluster k; past the last block if k is the
        cluster to be appended and all blocks are full. */
    method FetchIndirect(h: nat, k: nat, hint: int) returns (off: nat, b: int, ghost j: nat)
      requires Readable(h) && NONE <= hint < |buffers| && MAX_DIRECT_CLUSTER < k <= inodes[files[h].pf].count
      modifies `buffers, `bufferAccess, `dev, `files
      ensures Cached() && |buffers| == |old(buffers)| && |files| == |old(files)|
      ensures SameButCursor(old(files), files, h)
      ensures var ch := chains[files[h].pf];
        && Reached(ch, inodes[files[h].pf].count, k, files[h].icluster, files[h].ifirst, b, j)
        && off == k - files[h].ifirst && (|ch.ics| == 0 ==> b == hint)
    {
      var p := inodes[files[h].pf];
      ghost var ch := chains[files[h].pf];
      var icluster, ifirst := files[h].icluster, files[h].ifirst;
      if ifirst == 0 || k < ifirst {
        icluster := p.head;
        ifirst := MAX_DIRECT_CLUSTER + 1;
        j := 0;
      } else {
        j :| CursorAt(files[h], ch, pointersPerCluster, j);
      }
      icluster, ifirst, b, j := WalkChain(p, k, icluster, ifirst, hint, ch, j);
      files := files[h := files[h].(icluster := icluster, ifirst := ifirst)];
      off := k - ifirst;
    }

    lemma MappedIsReadable(h: nat)
      requires Mapped() && h < |files|
      ensures Readable(h) && OffMap(chains[files[h].pf])
    {
      var f := files[h].pf;
      forall i | 0 <= i < |chains[f].ics|
        ensures chains[f].ics[i] < |store| && chains[f].ics[i] != SuperCluster()
        ensures !InMap(Plan(), chains[f].ics[i])
      {
        assert OwnsIndirect(owner, chains, f, i);
      }
    }

    /** Only the cached position of open file h may have changed, and it is block j, which has data cluster k. */
    ghost predicate Moved(h: nat, k: nat, before: seq<File>)
      reads `files, `chains
    {
      && h < |files| == |before| && files[h].pf < |chains|
      && SameButCursor(before, files, h)
      && if k <= MAX_DIRECT_CLUSTER then files == before
         else exists j :: CursorAt(files[h], chains[files[h].pf], pointersPerCluster, j)
                          && files[h].ifirst <= k < files[h].ifirst + pointersPerCluster
    }

    /** leanfs_get_file_cluster: the k-th cluster of the file, whatever position is cached. The buffer
        passed on is whatever the uninitialized local variable points to. */
    method GetFileCluster(h: nat, k: nat) returns (cluster: nat)
      requires Readable(h) && k < inodes[files[h].pf].count
      modifies `buffers, `bufferAccess, `dev, `files
      ensures Readable(h) && |buffers| == |old(buffers)| && Moved(h, k, old(files))
      ensures k < |chains[files[h].pf].cs| && cluster == chains[files[h].pf].cs[k]
    {
      var p := inodes[files[h].pf];
      if k == 0 {
        cluster := p.first;
      } else if k <= MAX_DIRECT_CLUSTER {
        cluster := p.dclusters[k - 1];
      } else {
        ghost var ch := chains[files[h].pf];
        var b: int :| NONE <= b < |buffers|;
        var off;
        ghost var j;
        off, b, j := FetchIndirect(h, k, b);
        assert BlockOk(store, ch, pointersPerCluster, j);
        assert WordIn(store, ch.ics[j], off) == ch.cs[Start(j, pointersPerCluster) + off];
        cluster := ReadWord(buffers[b].data, off);
        assert CursorAt(files[h], ch, pointersPerCluster, j);
      }
    }

    /** The same, for a file in order. */
    method ClusterOf(h: nat, k: nat) returns (cluster: nat)
      requires Mapped() && h < |files| && k < inodes[files[h].pf].count
      modifies `buffers, `bufferAccess, `dev, `files
      ensures Mapped() && |buffers| == |old(buffers)| && Moved(h, k, old(files))
      ensures k < |chains[files[h].pf].cs| && cluster == chains[files[h].pf].cs[k]
    {
      MappedIsReadable(h);
      ghost var before := Now();
      cluster := GetFileCluster(h, k);
      CursorChanged(before, files, pointersPerCluster, h);
    }

    /** The least free cluster is marked and gets owner x. */
    method Allocate(ghost x: Owner, ghost keep: int, ghost kept: nat) returns (c: nat)
      requires Based() && 0 < sb.free && x != Unowned && x != Reserved && !InMap(Plan(), kept)
      requires keep != NONE ==> Holds(buffers, keep, kept) && buffers[keep].access == bufferAccess != 0
      modifies `buffers, `bufferAccess, `dev, `store, `sb, `owner
      ensures Based() && |buffers| == |old(buffers)| && |store| == |old(store)|
      ensures LeastUnowned(old(owner), c) && owner == old(owner)[c := x]
      ensures sb == old(sb).(free := old(sb).free - 1)
      ensures OnlyBitmap(old(store), store, Plan())
      ensures keep != NONE ==> Holds(buffers, keep, kept)
    {
      var ok;
      ok, c := FindFree(keep, kept);
      FullCount(owner, |owner|);
      WordInMap(sb.clusters, wordsPerCluster, c / 32);
      CountChange(owner, c, x, |owner|);
      BitmapSet(c, true, x, keep, kept);
    }

    /** Cluster c has been appended to file f since v0, with a new indirect cluster if `linked`. */
    ghost predicate Appended(f: nat, c: nat, linked: bool, v0: Snapshot, sb0: SuperBlock)
      reads `sb, `store, `inodes, `chains, `files, `owner
    {
      Grown(f, c, linked, v0, Now(), Plan()) && sb == sb0.(free := sb.free) && sb0.free == sb.free + (if linked then 2 else 1)
    }

    /** The new cluster takes a direct pointer. */
    method AppendDirect(h: nat) returns (c: nat)
      requires Mapped() && h < |files| && 0 < inodes[files[h].pf].count <= MAX_DIRECT_CLUSTER && 0 < sb.free
      modifies this
      ensures Mapped() && |buffers| == |old(buffers)|
      ensures Appended(old(files[h].pf), c, false, old(Now()), old(sb))
    {
      var f := files[h].pf;
      c := Allocate(Data(f, |chains[f].cs|), NONE, MapEnd());
      ghost var v' := DirectAppended(old(Now()), store, Plan(), pointersPerCluster, f, c);
      var p := inodes[f];
      inodes := inodes[f := p.(count := p.count + 1, dclusters := p.dclusters[p.count - 1 := c])];
      chains := v'.chains;
      assert Now() == v';
    }

    /** A pointer is written to word k of indirect cluster d, in buffer b. */
    method StoreWord(b: nat, k: nat, w: nat, ghost d: nat)
      requires Based() && Holds(buffers, b, d) && d < |owner| && owner[d] != Reserved && k <= pointersPerCluster && w < WORD
      modifies `buffers, `store
      ensures Based() && |buffers| == |old(buffers)| && |store| == |old(store)|
      ensures d < |store| && 4 * k + 4 <= |old(store)[d]| && store == old(store)[d := WriteWord(old(store)[d], k, w)]
      ensures buffers == old(buffers)[b := old(buffers)[b].(data := buffers[b].data)]
    {
      Poke(b, WriteWord(buffers[b].data, k, w));
      TracksElsewhere(old(store), store, sb.bitmap, wordsPerCluster, owner);
    }

    /** A free cluster is taken, and its address goes to word k of indirect cluster d, in buffer b, which
        the search for the free cluster and its marking leave in place. */
    method AllocateInto(ghost x: Owner, b: nat, k: nat, ghost d: nat) returns (c: nat, ghost store1: seq<seq<Byte>>)
      requires Based() && 0 < sb.free && x != Unowned && x != Reserved && k <= pointersPerCluster
      requires Holds(buffers, b, d) && buffers[b].access == bufferAccess != 0
      requires d < |owner| && owner[d] != Reserved && owner[d] != Unowned
      modifies `buffers, `bufferAccess, `dev, `store, `sb, `owner
      ensures Based() && |buffers| == |old(buffers)| && |store| == |old(store)| == |store1|
      ensures LeastUnowned(old(owner), c) && c < WORD && owner == old(owner)[c := x]
      ensures sb == old(sb).(free := old(sb).free - 1)
      ensures OnlyBitmap(old(store), store1, Plan())
      ensures d < |store| && |store1[d]| == 4 * pointersPerCluster + 4 && store == store1[d := WriteWord(store1[d], k, c)]
    {
      c := Allocate(x, b, d);
      store1 := store;
      StoreWord(b, k, c, d);
    }

    /** Indirect cluster j of the chain is in buffer b and has room for one more pointer, at `off`. */
    ghost predicate RoomIn(ch: Chain, b: int, off: int, j: nat)
      reads `buffers, `bufferAccess
    {
      && j < |ch.ics| && Start(j, pointersPerCluster) <= |ch.cs| < Start(j, pointersPerCluster) + pointersPerCluster
      && off == |ch.cs| - Start(j, pointersPerCluster)
      && Holds(buffers, b, ch.ics[j]) && buffers[b].access == bufferAccess != 0
    }

    /** The pointer to the new cluster goes to word `off` of the last indirect cluster, in buffer b,
        which the search for a free cluster and its marking leave in place. */
    method AppendRoom(h: nat, b: nat, off: nat, ghost j: nat) returns (c: nat)
      requires Mapped() && h < |files| && 0 < sb.free && RoomIn(chains[files[h].pf], b, off, j)
      modifies this
      ensures Mapped() && |buffers| == |old(buffers)|
      ensures Appended(old(files[h].pf), c, false, old(Now()), old(sb))
    {
      var f := files[h].pf;
      ghost var m, last := pointersPerCluster, chains[f].ics[j];
      assert OwnsIndirect(owner, chains, f, j);
      ghost var store1;
      c, store1 := AllocateInto(Data(f, |chains[f].cs|), b, off, last);
      ghost var v' := RoomAppended(old(Now()), store1, store, Plan(), m, f, j, c);
      inodes := inodes[f := inodes[f].(count := inodes[f].count + 1)];
      chains := v'.chains;
      assert Now() == v';
    }

    /** All blocks of the file of open file h are full; h's cached position has moved past the last one. */
    ghost predicate PastEnd(h: nat, index: nat, b: int)
      reads this
    {
      && Based() && AtEnd(Now(), pointersPerCluster, h) && files[h].ifirst == index && |chains| == |inodes|
      && var ch := chains[files[h].pf];
      if ch.ics == [] then b == NONE
      else Holds(buffers, b, ch.ics[|ch.ics| - 1]) && buffers[b].access == bufferAccess != 0
    }

    /** The new indirect cluster ic has been linked since v0, and is in buffer b. */
    ghost predicate Linked(h: nat, ic: nat, b: nat, v0: Snapshot, sb0: SuperBlock)
      reads this
    {
      && LinkedTo(v0, Now(), Plan(), pointersPerCluster, h, ic)
      && sb == sb0.(free := sb.free) && sb0.free == sb.free + 1
      && Holds(buffers, b, ic) && buffers[b].access == bufferAccess != 0
    }

    /** A new indirect cluster is allocated and linked to the last one, or to the inode if it is the first. */
    method LinkIndirect(h: nat, index: nat, b0: int) returns (ic: nat, b: nat)
      requires PastEnd(h, index, b0) && 0 < sb.free
      modifies this
      ensures Based() && |buffers| == |old(buffers)| && Linked(h, ic, b, old(Now()), old(sb))
    {
      ic := AllocateLink(h, index, b0);
      ghost var v1 := Now().(files := files[h := files[h].(icluster := ic)]);
      LinkIsTo(old(Now()), v1, Plan(), pointersPerCluster, h, ic);
      b := ReadBuf(ic, b0);
      files := files[h := files[h].(icluster := ic)];
      assert Now() == v1;
    }

    method AllocateLink(h: nat, index: nat, b0: int) returns (ic: nat)
      requires PastEnd(h, index, b0) && 0 < sb.free
      modifies this
      ensures Based() && |buffers| == |old(buffers)| && chains == old(chains) && files == old(files)
      ensures var f := files[h].pf; var ch := chains[f];
        && LeastUnowned(old(owner), ic) && owner == old(owner)[ic := Indirect(f, |ch.ics|)]
        && LinkWritten(old(store), store, Plan(), ch, pointersPerCluster, ic)
        && inodes == old(inodes)[f := old(inodes)[f].(head := if ch.ics == [] then ic else old(inodes)[f].head)]
        && sb == old(sb).(free := old(sb).free - 1)
    {
      var f := files[h].pf;
      ghost var ch, q := chains[f], |chains[f].ics|;
      FirstBlock(q, pointersPerCluster);
      if index == MAX_DIRECT_CLUSTER + 1 {
        ic := Allocate(Indirect(f, q), b0, MapEnd());
        inodes := inodes[f := inodes[f].(head := ic)];
      } else {
        assert OwnsIndirect(owner, chains, f, q - 1);
        ic := AllocateBehind(Indirect(f, q), b0, ch);
      }
    }

    /** A free cluster is taken, and linked to the last indirect cluster of the chain, in buffer b. */
    method AllocateBehind(ghost x: Owner, b: nat, ghost ch: Chain) returns (ic: nat)
      requires Based() && 0 < sb.free && x.Indirect? && ch.ics != []
      requires var last := ch.ics[|ch.ics| - 1];
        && Holds(buffers, b, last) && buffers[b].access == bufferAccess != 0
        && last < |owner| && owner[last].Indirect? && !InMap(Plan(), last)
      modifies `buffers, `bufferAccess, `dev, `store, `sb, `owner
      ensures Based() && |buffers| == |old(buffers)|
      ensures LeastUnowned(old(owner), ic) && owner == old(owner)[ic := x]
      ensures LinkWritten(old(store), store, Plan(), ch, pointersPerCluster, ic)
      ensures sb == old(sb).(free := old(sb).free - 1)
    {
      ghost var last := ch.ics[|ch.ics| - 1];
      ic := Allocate(x, b, last);
      ghost var store1 := store;
      StoreLink(b, ic, last);
      LinkStored(old(store), store1, store, Plan(), ch, pointersPerCluster, ic);
    }

    /** The link word of the last indirect cluster, in buffer b, is written and the buffer marked. */
    method StoreLink(b: nat, c: nat, ghost d: nat)
      requires Based() && Holds(buffers, b, d) && d < |owner| && owner[d] != Reserved && c < WORD
      modifies `buffers, `store, `dev
      ensures Based() && |buffers| == |old(buffers)| && |store| == |old(store)|
      ensures d < |store| && |old(store)[d]| == 4 * pointersPerCluster + 4
      ensures store == old(store)[d := WriteWord(old(store)[d], pointersPerCluster, c)]
    {
      StoreWord(b, pointersPerCluster, c, d);
      var ok := DirtyBuf(b, false);
    }

    /** All blocks are full: a new indirect cluster is linked first. */
    method AppendLinked(h: nat, index: nat, b0: int) returns (c: nat)
      requires PastEnd(h, index, b0) && 1 < sb.free
      modifies this
      ensures Mapped() && |buffers| == |old(buffers)|
      ensures Appended(old(files[h].pf), c, true, old(Now()), old(sb))
    {
      var ic, b := LinkIndirect(h, index, b0);
      c := FinishLinked(h, ic, b, old(Now()), old(sb));
    }

    /** The inode counts the new cluster, whose pointer goes to the first word of the new indirect cluster. */
    method FinishLinked(h: nat, ghost ic: nat, b: nat, ghost v0: Snapshot, ghost sb0: SuperBlock) returns (c: nat)
      requires Based() && Linked(h, ic, b, v0, sb0) && 0 < sb.free
      requires AtEnd(v0, pointersPerCluster, h) && ReservedOk(v0.owner, Plan())
      modifies this
      ensures Mapped() && |buffers| == |old(buffers)|
      ensures h < |v0.files| && Appended(v0.files[h].pf, c, true, v0, sb0)
    {
      var f := files[h].pf;
      ghost var v';
      c, v' := PointFirst(h, f, ic, b, v0, sb0);
      inodes := inodes[f := inodes[f].(count := inodes[f].count + 1)];
      chains := v'.chains;
      assert Now() == v';
    }

    method PointFirst(ghost h: nat, ghost f: nat, ghost ic: nat, b: nat, ghost v0: Snapshot, ghost sb0: SuperBlock)
        returns (c: nat, ghost v': Snapshot)
      requires Based() && Linked(h, ic, b, v0, sb0) && 0 < sb.free && f == v0.files[h].pf
      requires AtEnd(v0, pointersPerCluster, h) && ReservedOk(v0.owner, Plan())
      modifies `buffers, `bufferAccess, `dev, `store, `sb, `owner
      ensures Based() && |buffers| == |old(buffers)| && f < |inodes|
      ensures sb == old(sb).(free := old(sb).free - 1)
      ensures v' == Now().(inodes := inodes[f := inodes[f].(count := inodes[f].count + 1)], chains := v'.chains)
      ensures FilesOk(v', pointersPerCluster) && Grown(f, c, true, v0, v', Plan())
    {
      ghost var store2, v1 := store, Now();
      c, store2 := AllocateInto(Data(f, |chains[f].cs|), b, 0, ic);
      v' := LinkAppended(v0, v1, store2, store, Plan(), pointersPerCluster, h, ic, c);
    }

    /** leanfs_append_cluster */
    method AppendCluster(h: nat) returns (c: nat)
      requires Mapped() && h < |files| && 0 < inodes[files[h].pf].count
      requires (if NeedsLink(files[h].pf) then 1 else 0) < sb.free
      modifies this
      ensures Mapped() && |buffers| == |old(buffers)|
      ensures Appended(old(files[h].pf), c, old(NeedsLink(files[h].pf)), old(Now()), old(sb))
    {
      var index := inodes[files[h].pf].count;
      ChainEnd(chains[files[h].pf], pointersPerCluster, |chains[files[h].pf].ics|);
      if index <= MAX_DIRECT_CLUSTER {
        c := AppendDirect(h);
      } else {
        c := AppendIndirect(h, index);
      }
    }

    /** Whether the next cluster of the file needs a new indirect cluster. */
    ghost predicate NeedsLink(f: nat)
      reads `chains
    {
      f < |chains| && |chains[f].cs| == Start(|chains[f].ics|, pointersPerCluster)
    }

    method AppendIndirect(h: nat, index: nat) returns (c: nat)
      requires Mapped() && h < |files| && MAX_DIRECT_CLUSTER < index == inodes[files[h].pf].count
      requires (if NeedsLink(files[h].pf) then 1 else 0) < sb.free
      modifies this
      ensures Mapped() && |buffers| == |old(buffers)|
      ensures Appended(old(files[h].pf), c, old(NeedsLink(files[h].pf)), old(Now()), old(sb))
    {
      var off, b;
      ghost var j;
      off, b, j := FetchEnd(h, index);
      if files[h].ifirst == index {
        c := AppendLinked(h, index, b);
      } else {
        c := AppendRoom(h, b, off, j);
      }
    }

    /** The walk to the indirect cluster that takes the next pointer, or past the last one if that is full. */
    method FetchEnd(h: nat, index: nat) returns (off: nat, b: int, ghost j: nat)
      requires Mapped() && h < |files| && MAX_DIRECT_CLUSTER < index == inodes[files[h].pf].count
      modifies `buffers, `bufferAccess, `dev, `files
      ensures |buffers| == |old(buffers)| && |files| == |old(files)|
      ensures SameButCursor(old(files), files, h)
      ensures files[h].ifirst == index <==> NeedsLink(files[h].pf)
      ensures if files[h].ifirst == index then PastEnd(h, index, b)
              else Mapped() && 0 <= b && RoomIn(chains[files[h].pf], b, off, j)
    {
      ghost var f, before := files[h].pf, Now();
      MappedIsReadable(h);
      off, b, j := FetchIndirect(h, index, NONE);
      EndOrBlock(chains[f], pointersPerCluster, j, index);
      if files[h].ifirst != index {
        assert CursorAt(files[h], chains[f], pointersPerCluster, j);
        CursorChanged(before, files, pointersPerCluster, h);
      }
    }

    /** The indirect clusters of a chain lie outside the bitmap. */
    ghost predicate OffMap(ch: Chain)
      reads `sb
    {
      forall i :: 0 <= i < |ch.ics| ==> !InMap(Plan(), ch.ics[i])
    }

    /** A cluster is freed while the file it belonged to can still be read. */
    method FreeCluster(h: nat, c: nat)
      requires Based() && Readable(h) && OffMap(chains[files[h].pf]) && c < |owner| && owner[c] != Reserved
      modifies `buffers, `bufferAccess, `dev, `store, `sb, `owner
      ensures Based() && Readable(h) && OffMap(chains[files[h].pf]) && |buffers| == |old(buffers)| && |store| == |old(store)|
      ensures owner == old(owner)[c := Unowned] && sb == old(sb).(free := sb.free)
      ensures OnlyBitmap(old(store), store, Plan())
    {
      BitmapSet(c, false, Unowned, NONE, 0);
      DescribesKept(old(store), store, inodes[files[h].pf], chains[files[h].pf], pointersPerCluster);
    }

    /** leanfs_delete_clusters: the file keeps n clusters, and everything else that made it up is free.
        Cached positions past the end are still there. */
    method DeleteClusters(h: nat, n: nat)
      requires Mapped() && h < |files| && n <= inodes[files[h].pf].count
      modifies this
      ensures Based() && |buffers| == |old(buffers)|
      ensures Shrunk(old(files[h].pf), n, old(Now()), old(sb))
      ensures SameButCursor(old(files), files, h)
      ensures OthersSame(old(files[h].pf), old(Now()))
    {
      FreeFrom(h, n);
      FinishCut(h, n, old(Now()), old(sb));
    }

    /** The inode counts n clusters only. */
    method FinishCut(h: nat, n: nat, ghost v0: Snapshot, ghost sb0: SuperBlock)
      requires Based() && FilesOk(v0, pointersPerCluster) && ReservedOk(v0.owner, Plan()) && sb0.free == CountFree(v0.owner, |v0.owner|)
      requires inodes == v0.inodes && chains == v0.chains && SameButCursor(v0.files, files, h) && sb == sb0.(free := sb.free)
      requires files[h].pf < |chains| && CursorOk(files[h], chains[files[h].pf], pointersPerCluster) && n <= |chains[files[h].pf].cs|
      requires FreedUpTo(v0.owner, owner, files[h].pf, pointersPerCluster, n, |chains[files[h].pf].cs|)
      requires OnlyBitmap(v0.store, store, Plan())
      modifies `inodes, `chains
      ensures Shrunk(files[h].pf, n, v0, sb0) && OthersSame(files[h].pf, v0)
    {
      var f := files[h].pf;
      ghost var ch' := FilesCut(v0, store, files, owner, Plan(), pointersPerCluster, h, n);
      inodes := inodes[f := inodes[f].(count := n)];
      chains := chains[f := ch'];
      FreedCount(v0.owner, owner, v0.chains, f, pointersPerCluster, n);
      OthersUncut(f, v0);
    }

    /** What leanfs_close does to a file that nothing links to: all its clusters are freed, and no others. */
    method DeleteFile(h: nat)
      requires Mapped() && h < |files|
      modifies this
      ensures Based() && |buffers| == |old(buffers)| && |store| == |old(store)|
      ensures Deleted(old(files[h].pf), old(Now()), old(sb))
      ensures var f := old(files[h].pf);
        && SameButCursor(old(files), files, h)
        && FilesOk(Now().(files := Reset(files, f, 0)), pointersPerCluster)
      ensures OthersSame(old(files[h].pf), old(Now()))
    {
      DeleteClusters(h, 0);
      forall c | 0 <= c < |owner|
        ensures owner[c] == if Of(old(owner)[c], old(files[h].pf)) then Unowned else old(owner)[c]
      {
        WholeFileFreed(old(owner), owner, old(chains), old(files[h].pf), pointersPerCluster, c);
      }
    }

    /** The loop that frees the clusters from number n on. */
    method FreeFrom(h: nat, n: nat)
      requires Mapped() && h < |files| && n <= inodes[files[h].pf].count
      modifies `buffers, `bufferAccess, `dev, `files, `store, `sb, `owner
      ensures Based() && Readable(h) && |buffers| == |old(buffers)| && |store| == |old(store)|
      ensures sb == old(sb).(free := sb.free) && |files| == |old(files)|
      ensures SameButCursor(old(files), files, h)
      ensures FreedUpTo(old(owner), owner, files[h].pf, pointersPerCluster, n, inodes[files[h].pf].count)
      ensures OnlyBitmap(old(store), store, Plan())
    {
      var f := files[h].pf;
      MappedIsReadable(h);
      var index := n;
      while index < inodes[f].count
        invariant sb == old(sb).(free := sb.free)
        invariant |files| == |old(files)|
        invariant SameButCursor(old(files), files, h)
        invariant Based() && Readable(h) && OffMap(chains[f]) && n <= index <= inodes[f].count
        invariant |buffers| == |old(buffers)| && |store| == |old(store)|
        invariant FreedUpTo(old(owner), owner, f, pointersPerCluster, n, index)
        invariant OnlyBitmap(old(store), store, Plan())
      {
        DeleteNext(h, f, n, index, old(owner));
        index := index + 1;
      }
    }

    /** A file that keeps its inode and its clusters keeps its bytes. */
    lemma OthersUncut(f: nat, v0: Snapshot)
      requires Owned(v0.owner, v0.chains) && ReservedOk(v0.owner, Plan()) && OnlyBitmap(v0.store, store, Plan())
      requires |inodes| == |chains| == |v0.inodes| == |v0.chains|
      requires forall g :: 0 <= g < |inodes| && g != f ==> inodes[g] == v0.inodes[g] && chains[g] == v0.chains[g]
      ensures OthersSame(f, v0)
    {
      forall g | 0 <= g < |inodes| && g != f && HasContent(v0.store, v0.inodes[g], v0.chains[g], clusterBytes)
        ensures HasView(g) && View(g) == Content(v0.store, v0.inodes[g], v0.chains[g], clusterBytes)
      {
        ContentOffMap(v0, store, Plan(), clusterBytes, g);
      }
    }

    /** File f has been cut to n clusters since v0; all is in order once the cached positions past the end
        are reset. */
    ghost predicate Shrunk(f: nat, n: nat, v0: Snapshot, sb0: SuperBlock)
      reads `sb, `store, `inodes, `chains, `files, `owner
    {
      && f < |v0.inodes| == |v0.chains| && n <= |v0.chains[f].cs| && Sized(v0.chains[f], pointersPerCluster)
      && inodes == v0.inodes[f := v0.inodes[f].(count := n)]
      && chains == v0.chains[f := Cut(v0.chains[f], pointersPerCluster, n)]
      && FreedUpTo(v0.owner, owner, f, pointersPerCluster, n, |v0.chains[f].cs|) && OnlyBitmap(v0.store, store, Plan())
      && |files| == |v0.files|
      && (forall i :: 0 <= i < |files| ==> files[i].pf == v0.files[i].pf && files[i].pointer == v0.files[i].pointer)
      && sb == sb0.(free := sb0.free + (|v0.chains[f].cs| - n) + (|v0.chains[f].ics| - |chains[f].ics|))
      && FilesOk(Now().(files := Reset(files, f, n)), pointersPerCluster)
    }

    method DeleteNext(h: nat, ghost f: nat, ghost n: nat, index: nat, ghost owner0: seq<Owner>)
      requires Based() && Readable(h) && f == files[h].pf && OffMap(chains[f]) && Owned(owner0, chains)
      requires n <= index < inodes[f].count && FreedUpTo(owner0, owner, f, pointersPerCluster, n, index)
      modifies `buffers, `bufferAccess, `dev, `files, `store, `sb, `owner
      ensures Based() && Readable(h) && OffMap(chains[f]) && |buffers| == |old(buffers)| && |store| == |old(store)|
      ensures sb == old(sb).(free := sb.free)
      ensures SameButCursor(old(files), files, h)
      ensures FreedUpTo(owner0, owner, f, pointersPerCluster, n, index + 1)
      ensures OnlyBitmap(old(store), store, Plan())
    {
      var cluster := NextToFree(h, f, n, index, owner0);
      FreeCluster(h, cluster);
      if index != 0 && index == files[h].ifirst {
        FreeCluster(h, files[h].icluster);
      }
    }

    /** The next data cluster to free; if it is the first of a block, the cached position is that block. */
    method NextToFree(h: nat, ghost f: nat, ghost n: nat, index: nat, ghost owner0: seq<Owner>) returns (cluster: nat)
      requires Based() && Readable(h) && f == files[h].pf && OffMap(chains[f]) && Owned(owner0, chains)
      requires n <= index < inodes[f].count && FreedUpTo(owner0, owner, f, pointersPerCluster, n, index)
      modifies `buffers, `bufferAccess, `dev, `files
      ensures Based() && Readable(h) && |buffers| == |old(buffers)|
      ensures SameButCursor(old(files), files, h)
      ensures cluster < |owner| && owner[cluster] == Data(f, index)
      ensures if index == 0 || index != files[h].ifirst
              then FreedUpTo(owner0, owner[cluster := Unowned], f, pointersPerCluster, n, index + 1)
              else
                var ic := files[h].icluster;
                && ic < |owner| && ic != cluster && owner[ic].Indirect?
                && FreedUpTo(owner0, owner[cluster := Unowned][ic := Unowned], f, pointersPerCluster, n, index + 1)
    {
      cluster := GetFileCluster(h, index);
      ghost var j := FirstOfBlock(files[h], chains[f], pointersPerCluster, index);
      ghost var owner' := FreedStep(owner0, owner, chains, f, pointersPerCluster, n, index, j, index != 0 && index == files[h].ifirst);
    }

    /** leanfs_validate_pos: no open file keeps a cached position past the end of file f. */
    method ValidatePos(f: nat)
      requires f < |inodes|
      modifies `files
      ensures files == Reset(old(files), f, inodes[f].count)
      ensures |files| == |old(files)| && forall i :: 0 <= i < |files| ==>
        files[i] == if old(files)[i].pf == f && inodes[f].count <= old(files)[i].ifirst
                    then File(f, old(files)[i].pointer, 0, 0) else old(files)[i]
    {
      var k := 0;
      while k < |files|
        invariant 0 <= k <= |files| == |old(files)|
        invariant forall i :: 0 <= i < |files| ==> files[i] == if i < k then Reset(old(files), f, inodes[f].count)[i] else old(files)[i]
      {
        if files[k].pf == f && files[k].ifirst >= inodes[f].count {
          files := files[k := files[k].(icluster := 0, ifirst := 0)];
        }
        k := k + 1;
      }
    }

    /** Besides, every file is as many clusters long as its size needs, unless it has been deleted. */
    ghost predicate Ready()
      reads this
    {
      Mapped() && AllInStep(Now(), clusterBytes)
    }

    ghost predicate HasView(f: nat)
      reads `store, `inodes, `chains
    {
      f < |inodes| == |chains| && HasContent(store, inodes[f], chains[f], clusterBytes)
    }

    /** The bytes of file f. */
    ghost function View(f: nat): seq<Byte>
      requires HasView(f)
      reads `store, `inodes, `chains
    {
      Content(store, inodes[f], chains[f], clusterBytes)
    }

    lemma ReadyHasView(f: nat)
      requires Ready() && f < |inodes| && inodes[f].count != 0
      ensures HasView(f)
    {
      forall k | 0 <= k < |chains[f].cs|
        ensures chains[f].cs[k] < |store| && |store[chains[f].cs[k]]| == clusterBytes
      {
        assert OwnsData(owner, chains, f, k);
      }
      assert Describes(store, inodes[f], chains[f], pointersPerCluster);
    }

    /** A data cluster can be read, and it is not in the bitmap. */
    lemma DataCluster(f: nat, k: nat)
      requires Based() && Owned(owner, chains) && f < |chains| && k < |chains[f].cs|
      ensures var c := chains[f].cs[k];
        c < |owner| && owner[c] == Data(f, k) && c < |store| && c != SuperCluster() && !InMap(Plan(), c)
    {
      assert OwnsData(owner, chains, f, k);
    }

    /** leanfs_read: the bytes of the file from its pointer on, as many as asked for and there are. */
    method Read(h: nat, size: nat) returns (data: seq<Byte>)
      requires Ready() && h < |files|
      modifies `buffers, `bufferAccess, `dev, `files
      ensures Ready() && |files| == |old(files)| && HasView(files[h].pf)
      ensures files[h].pf == old(files)[h].pf && files[h].pointer == old(files)[h].pointer + |data|
      ensures forall i :: 0 <= i < |files| && i != h ==> files[i] == old(files)[i]
      ensures var s, p := View(files[h].pf), old(files)[h].pointer;
        if |s| <= p then data == [] else data == s[p..if p + size < |s| then p + size else |s|]
    {
      var offset;
      data, offset := ReadPieces(h, size);
      SetPointer(h, offset);
    }

    /** The loop of leanfs_read. */
    method ReadPieces(h: nat, size: nat) returns (data: seq<Byte>, offset: nat)
      requires Ready() && h < |files|
      modifies `buffers, `bufferAccess, `dev, `files
      ensures Reading(h, old(files), size, data, offset) && (|data| < size ==> inodes[files[h].pf].size <= offset)
    {
      ReadyHasView(files[h].pf);
      data, offset := [], files[h].pointer;
      var b := NONE;
      while |data| < size && offset < inodes[files[h].pf].size
        invariant Reading(h, old(files), size, data, offset) && NONE <= b < |buffers|
      {
        data, offset, b := ReadMore(h, old(files), size, data, offset, b);
      }
    }

    /** The bytes from the pointer of channel h up to `offset` have been read. */
    ghost predicate Reading(h: nat, files0: seq<File>, size: nat, data: seq<Byte>, offset: nat)
      reads this
    {
      && Ready() && SameButCursor(files0, files, h) && HasView(files[h].pf)
      && |data| <= size && offset == files0[h].pointer + |data|
      && (data != [] ==> offset <= inodes[files[h].pf].size && data == View(files[h].pf)[files0[h].pointer..offset])
    }

    /** One more piece is read. */
    method ReadMore(h: nat, ghost files0: seq<File>, size: nat, data: seq<Byte>, offset: nat, hint: int)
        returns (data': seq<Byte>, offset': nat, b: nat)
      requires Reading(h, files0, size, data, offset) && |data| < size && offset < inodes[files[h].pf].size
      requires NONE <= hint < |buffers|
      modifies `buffers, `bufferAccess, `dev, `files
      ensures |data| < |data'| && Reading(h, files0, size, data', offset') && b < |buffers|
    {
      var piece;
      piece, b := ReadNext(h, offset, size - |data|, hint);
      ReadOn(View(files[h].pf), files0[h].pointer, offset, data, piece);
      data', offset' := data + piece, offset + |piece|;
    }

    /** The next piece, within one cluster. */
    method ReadNext(h: nat, offset: nat, want: nat, hint: int) returns (piece: seq<Byte>, b: nat)
      requires Ready() && h < |files| && HasView(files[h].pf) && offset < inodes[files[h].pf].size && 0 < want
      requires NONE <= hint < |buffers|
      modifies `buffers, `bufferAccess, `dev, `files
      ensures Ready() && |files| == |old(files)| && b < |buffers| && HasView(files[h].pf)
      ensures SameButCursor(old(files), files, h)
      ensures 0 < |piece| <= want && offset + |piece| <= inodes[files[h].pf].size
      ensures piece == View(files[h].pf)[offset..offset + |piece|]
    {
      var p := inodes[files[h].pf];
      var start;
      b, start := ReadClusterAt(h, offset, hint);
      var count := PieceCount(offset, want, start, clusterBytes, p.size);
      piece := buffers[b].data[start..start + count];
      ReadPiece(store, p, chains[files[h].pf], clusterBytes, offset, count);
    }

    /** How many bytes to take from the cluster: to its end or the end of the file, and no more than are wanted. */
    static method PieceCount(offset: nat, want: nat, start: nat, cb: nat, size: nat) returns (count: nat)
      requires offset < size && 0 < want && start < cb
      ensures 0 < count <= want && offset + count <= size && start + count <= cb
    {
      count := cb - start;
      if offset + count >= size {
        count := size - offset;
      }
      if want < count {
        count := want;
      }
    }

    /** The cluster that holds byte `offset` of the file is read into buffer b; the byte is at `start` there. */
    method ReadClusterAt(h: nat, offset: nat, hint: int) returns (b: nat, start: nat)
      requires Ready() && h < |files| && HasView(files[h].pf) && offset < inodes[files[h].pf].size
      requires NONE <= hint < |buffers|
      modifies `buffers, `bufferAccess, `dev, `files
      ensures Ready() && |files| == |old(files)| && HasView(files[h].pf)
      ensures SameButCursor(old(files), files, h)
      ensures start == Rem(offset + INODE_BYTES, clusterBytes) < clusterBytes
      ensures var ch, k := chains[files[h].pf], Quot(offset + INODE_BYTES, clusterBytes);
        k < |ch.cs| && Holds(buffers, b, ch.cs[k]) && ch.cs[k] < |store| && buffers[b].data == store[ch.cs[k]]
    {
      var cluster;
      cluster, start := ClusterAt(h, offset);
      b := ReadBuf(cluster, hint);
    }

    /** The cluster that holds byte `offset` of the file, and where the byte is there. */
    method ClusterAt(h: nat, offset: nat) returns (cluster: nat, start: nat)
      requires Ready() && h < |files| && HasView(files[h].pf) && offset < inodes[files[h].pf].size
      modifies `buffers, `bufferAccess, `dev, `files
      ensures Ready() && |buffers| == |old(buffers)| && SameButCursor(old(files), files, h) && HasView(files[h].pf)
      ensures start == Rem(offset + INODE_BYTES, clusterBytes) < clusterBytes
      ensures var ch, k := chains[files[h].pf], Quot(offset + INODE_BYTES, clusterBytes);
        k < |ch.cs| && cluster == ch.cs[k] < |store| && cluster != SuperCluster()
    {
      QuotRem(offset + INODE_BYTES, clusterBytes);
      WhereToRead(inodes[files[h].pf], clusterBytes, offset);
      var index := (offset + INODE_BYTES) / clusterBytes;
      cluster := ClusterOf(h, index);
      start := (offset + INODE_BYTES) % clusterBytes;
      DataCluster(files[h].pf, index);
    }

    /** Since v0 only file f has changed, and clusters have only been taken. */
    ghost predicate Touched(f: nat, v0: Snapshot, sb0: SuperBlock)
      reads `sb, `store, `inodes, `chains, `files, `owner
    {
      OnlyFile(f, v0, Now(), Plan()) && sb == sb0.(free := sb.free)
    }

    /** How many free clusters it takes to make file f `size` bytes long. */
    ghost function CostTo(f: nat, size: nat): nat
      requires f < |chains| && 0 < clusterBytes
      reads `chains
    {
      Cost(|chains[f].cs|, |chains[f].ics|, pointersPerCluster, Quot(size + INODE_BYTES - 1, clusterBytes) + 1)
    }

    /** The cluster number `index` of the file, appended if it is the next one. */
    method Locate(h: nat, index: nat, ghost target: nat) returns (cluster: nat)
      requires Mapped() && h < |files| && index <= inodes[files[h].pf].count && 0 < inodes[files[h].pf].count && 0 < clusterBytes
      requires index <= Quot(target + INODE_BYTES - 1, clusterBytes) && CostTo(files[h].pf, target) <= sb.free
      modifies this
      ensures Mapped() && |buffers| == |old(buffers)| && |files| == |old(files)| && files[h].pf == old(files[h].pf)
      ensures Touched(files[h].pf, old(Now()), old(sb))
      ensures CostTo(files[h].pf, target) <= sb.free
      ensures Grew(files[h].pf, index, cluster, old(Now()))
    {
      ghost var f := files[h].pf;
      if index < inodes[files[h].pf].count {
        cluster := ClusterOf(h, index);
      } else {
        cluster := AppendNext(h, target);
      }
    }

    /** One more cluster, which counts in what a file of `target` bytes costs. */
    method AppendNext(h: nat, ghost target: nat) returns (c: nat)
      requires Mapped() && h < |files| && 0 < inodes[files[h].pf].count <= Quot(target + INODE_BYTES - 1, clusterBytes)
      requires 0 < clusterBytes && CostTo(files[h].pf, target) <= sb.free
      modifies this
      ensures Mapped() && |buffers| == |old(buffers)| && |files| == |old(files)| && files[h].pf == old(files[h].pf)
      ensures Touched(files[h].pf, old(Now()), old(sb)) && CostTo(files[h].pf, target) <= sb.free
      ensures Grew(files[h].pf, old(inodes[files[h].pf].count), c, old(Now()))
    {
      ghost var f, linked := files[h].pf, NeedsLink(files[h].pf);
      CostStep(|chains[f].cs|, |chains[f].ics|, pointersPerCluster, Quot(target + INODE_BYTES - 1, clusterBytes) + 1);
      c := AppendCluster(h);
      AppendedGrew(f, c, linked, old(Now()), old(sb));
      AppendedCost(f, c, linked, old(Now()), old(sb), target);
    }

    /** What has been taken was counted in what it costs. */
    lemma AppendedCost(f: nat, c: nat, linked: bool, v0: Snapshot, sb0: SuperBlock, target: nat)
      requires Appended(f, c, linked, v0, sb0) && 0 < clusterBytes
      requires var ch, n := v0.chains[f], Quot(target + INODE_BYTES - 1, clusterBytes) + 1;
        && linked == (|ch.cs| == Start(|ch.ics|, pointersPerCluster)) && |ch.cs| < n
        && Cost(|ch.cs|, |ch.ics|, pointersPerCluster, n) <= sb0.free
      ensures CostTo(f, target) <= sb.free
    {
      CostStep(|v0.chains[f].cs|, |v0.chains[f].ics|, pointersPerCluster, Quot(target + INODE_BYTES - 1, clusterBytes) + 1);
    }

    /** An append changes nothing but the file, and none of its data clusters. */
    lemma AppendedGrew(f: nat, c: nat, linked: bool, v0: Snapshot, sb0: SuperBlock)
      requires Appended(f, c, linked, v0, sb0) && Owned(v0.owner, v0.chains) && ReservedOk(v0.owner, Plan())
      ensures Touched(f, v0, sb0) && Grew(f, |v0.chains[f].cs|, c, v0)
    {
      GrownOnlyFile(f, c, linked, v0, Now(), Plan());
      forall k | 0 <= k < |v0.chains[f].cs| && v0.chains[f].cs[k] < |store|
        ensures store[v0.chains[f].cs[k]] == v0.store[v0.chains[f].cs[k]]
      {
        GrownKeepsData(f, c, linked, v0, Now(), Plan(), k);
      }
    }

    /** Bytes go into data cluster `index` of file f at position `start`, and its size becomes `size`. */
    method PutPiece(f: nat, cluster: nat, ghost index: nat, start: nat, bytes: seq<Byte>, size: nat, hint: int,
                    writeThrough: bool) returns (b: nat)
      requires Mapped() && f < |chains| && index < |chains[f].cs| && cluster == chains[f].cs[index]
      requires start + |bytes| <= clusterBytes && NONE <= hint < |buffers| && size >= inodes[f].size
      modifies `buffers, `bufferAccess, `dev, `store, `inodes
      ensures Mapped() && |buffers| == |old(buffers)| && b < |buffers|
      ensures inodes == old(inodes)[f := old(inodes)[f].(size := size)]
      ensures cluster < |store| && |old(store)| == |store| && |old(store)[cluster]| == clusterBytes
      ensures store == old(store)[cluster := Splice(old(store)[cluster], start, bytes)]
      ensures Touched(f, old(Now()), sb)
    {
      SetSize(f, size);
      DataCluster(f, index);
      b := WriteInto(cluster, start, bytes, hint, writeThrough);
      ghost var v' := DataWritten(old(Now()), store, Plan(), pointersPerCluster, f, index, size);
      assert Now() == v';
    }

    method SetSize(f: nat, size: nat)
      requires f < |inodes|
      modifies `inodes
      ensures inodes == old(inodes)[f := old(inodes)[f].(size := size)]
    {
      if size != inodes[f].size {
        inodes := inodes[f := inodes[f].(size := size)];
      }
    }

    /** Bytes go into a cluster that is neither free nor reserved. */
    method WriteInto(cluster: nat, start: nat, bytes: seq<Byte>, hint: int, writeThrough: bool) returns (b: nat)
      requires Based() && cluster < |owner| && owner[cluster] != Reserved
      requires start + |bytes| <= clusterBytes && NONE <= hint < |buffers|
      modifies `buffers, `bufferAccess, `dev, `store
      ensures Based() && |buffers| == |old(buffers)| && b < |buffers|
      ensures cluster < |store| && |old(store)| == |store| && |old(store)[cluster]| == clusterBytes
      ensures store == old(store)[cluster := Splice(old(store)[cluster], start, bytes)]
    {
      b := ReadBuf(cluster, hint);
      WriteDirty(b, Splice(buffers[b].data, start, bytes), writeThrough);
      TracksElsewhere(old(store), store, sb.bitmap, wordsPerCluster, owner);
    }

    /** One piece of a write, within one cluster. */
    method WritePiece(h: nat, bytes: seq<Byte>, offset: nat, hint: int, writeThrough: bool, ghost target: nat) returns (b: nat)
      requires Ready() && h < |files| && offset <= inodes[files[h].pf].size && bytes != [] && NONE <= hint < |buffers|
      requires 0 < clusterBytes && Rem(offset + INODE_BYTES, clusterBytes) + |bytes| <= clusterBytes
      requires offset + |bytes| <= target && CostTo(files[h].pf, target) <= sb.free && HasView(files[h].pf)
      modifies this
      ensures Ready() && |buffers| == |old(buffers)| && b < |buffers| && |files| == |old(files)| && files[h].pf == old(files[h].pf)
      ensures HasView(files[h].pf) && View(files[h].pf) == Overwrite(old(View(files[h].pf)), offset, bytes)
      ensures Touched(files[h].pf, old(Now()), old(sb))
      ensures CostTo(files[h].pf, target) <= sb.free
    {
      ghost var f := files[h].pf;
      ghost var p' := FilledAfter(inodes[f], clusterBytes, offset, |bytes|);
      var cluster, start := Place(h, offset, |bytes|, target);
      ghost var v1 := Now();
      b := PutPiece(files[h].pf, cluster, Quot(offset + INODE_BYTES, clusterBytes), start, bytes,
                    SizeAfter(inodes[files[h].pf].size, offset, |bytes|), hint, writeThrough);
      PieceWritten(f, old(Now()), v1, p', offset, bytes);
    }

    /** The cluster for byte `offset` of the file, appended if need be, and the position of the byte there. */
    method Place(h: nat, offset: nat, n: nat, ghost target: nat) returns (cluster: nat, start: nat)
      requires Ready() && h < |files| && offset <= inodes[files[h].pf].size && 0 < n
      requires offset + n <= target && 0 < clusterBytes && CostTo(files[h].pf, target) <= sb.free && HasView(files[h].pf)
      modifies this
      ensures Mapped() && |buffers| == |old(buffers)| && |files| == |old(files)| && files[h].pf == old(files[h].pf)
      ensures Touched(files[h].pf, old(Now()), old(sb)) && CostTo(files[h].pf, target) <= sb.free
      ensures start == Rem(offset + INODE_BYTES, clusterBytes)
      ensures Grew(files[h].pf, Quot(offset + INODE_BYTES, clusterBytes), cluster, old(Now()))
    {
      QuotRem(offset + INODE_BYTES, clusterBytes);
      WhereToWrite(inodes[files[h].pf], clusterBytes, offset);
      QuotMono(offset + INODE_BYTES, target + INODE_BYTES - 1, clusterBytes);
      var index := (offset + INODE_BYTES) / clusterBytes;
      start := (offset + INODE_BYTES) % clusterBytes;
      cluster := Locate(h, index, target);
    }

    /** Data cluster `index` of file f is there, as its last one if it was not, and its data clusters are as in v0. */
    ghost predicate Grew(f: nat, index: nat, cluster: nat, v0: Snapshot)
      reads `store, `inodes, `chains
    {
      && f < |inodes| == |chains| == |v0.inodes| == |v0.chains| && |store| == |v0.store|
      && index < |chains[f].cs| && cluster == chains[f].cs[index] && inodes[f].size == v0.inodes[f].size
      && |chains[f].cs| == (if index < |v0.chains[f].cs| then |v0.chains[f].cs| else |v0.chains[f].cs| + 1)
      && (forall k :: 0 <= k < |v0.chains[f].cs| && v0.chains[f].cs[k] < |store| ==>
            store[v0.chains[f].cs[k]] == v0.store[v0.chains[f].cs[k]])
    }

    /** A piece has been written since v1 to data cluster k of file f, which was located since v0. */
    lemma PieceWritten(f: nat, v0: Snapshot, v1: Snapshot, p': Inode, offset: nat, bytes: seq<Byte>)
      requires Mapped() && AllInStep(v0, clusterBytes) && OnlyFile(f, v0, v1, Plan()) && OnlyFile(f, v1, Now(), Plan())
      requires HasContent(v0.store, v0.inodes[f], v0.chains[f], clusterBytes) && offset <= v0.inodes[f].size
      requires Filled(p', clusterBytes) && inodes[f].size == p'.size == SizeAfter(v0.inodes[f].size, offset, |bytes|)
      requires |chains[f].cs| == p'.count && chains == v1.chains && v0.chains[f].cs <= chains[f].cs
      requires forall k :: 0 <= k < |v0.chains[f].cs| ==> v1.store[v0.chains[f].cs[k]] == v0.store[v0.chains[f].cs[k]]
      requires var k, r := Quot(offset + INODE_BYTES, clusterBytes), Rem(offset + INODE_BYTES, clusterBytes);
        && k < |chains[f].cs| && r + |bytes| <= clusterBytes && chains[f].cs[k] < |v1.store|
        && |v1.store[chains[f].cs[k]]| == clusterBytes
        && store == v1.store[chains[f].cs[k] := Splice(v1.store[chains[f].cs[k]], r, bytes)]
      ensures Ready() && HasView(f) && OnlyFile(f, v0, Now(), Plan())
      ensures View(f) == Overwrite(Content(v0.store, v0.inodes[f], v0.chains[f], clusterBytes), offset, bytes)
    {
      DataApart(owner, chains, f, Quot(offset + INODE_BYTES, clusterBytes));
      OnlyFileTwice(f, v0, v1, Now(), Plan());
      forall c | 0 <= c < |store|
        ensures |v1.store[c]| == clusterBytes
      {
        assert |store[c]| == clusterBytes;
      }
      ReadyAfter(f, v0, p', v1.store);
      ContentWritten(v0.store, v1.store, store, v0.inodes[f], inodes[f], v0.chains[f], chains[f], clusterBytes, offset, bytes);
    }

    /** The lengths are in step again after a write to file f. */
    lemma ReadyAfter(f: nat, v0: Snapshot, p': Inode, store1: seq<seq<Byte>>)
      requires Mapped() && AllInStep(v0, clusterBytes) && OnlyFile(f, v0, Now(), Plan())
      requires Filled(p', clusterBytes) && inodes[f].size == p'.size && |chains[f].cs| == p'.count
      requires |store1| == |store| && forall c :: 0 <= c < |store| ==> |store1[c]| == clusterBytes
      ensures Ready() && HasView(f) && HasContent(store1, inodes[f], chains[f], clusterBytes)
    {
      assert Describes(store, inodes[f], chains[f], pointersPerCluster);
      forall g | 0 <= g < |inodes|
        ensures InStep(inodes[g], clusterBytes)
      {
        assert g != f ==> InStep(v0.inodes[g], clusterBytes);
      }
      forall h | 0 <= h < |files|
        ensures files[h].pf < |inodes| && inodes[files[h].pf].count != 0
      {
        assert v0.files[h].pf == files[h].pf;
      }
      ReadyHasView(f);
    }

    /** The bytes `done` have been written to file f from offset0 on, as seen from the state before. */
    ghost predicate Writing(h: nat, f: nat, offset0: nat, done: seq<Byte>, target: nat, view0: seq<Byte>, v0: Snapshot, sb0: SuperBlock)
      reads this
    {
      && Ready() && h < |files| == |v0.files| && files[h].pf == f && HasView(f) && 0 < clusterBytes
      && offset0 <= |view0| && View(f) == Overwrite(view0, offset0, done)
      && Touched(f, v0, sb0)
      && offset0 + |done| <= target && CostTo(f, target) <= sb.free
    }

    /** do_write: the bytes go over the file from `offset` on, which is not past its end, and are counted; a
        file of `target` bytes can be afforded before and after. */
    method DoWrite(h: nat, src: seq<Byte>, offset0: nat, writeThrough: bool, ghost target: nat) returns (n: nat)
      requires Ready() && h < |files| && offset0 <= inodes[files[h].pf].size && HasView(files[h].pf)
      requires offset0 + |src| <= target && 0 < clusterBytes && CostTo(files[h].pf, target) <= sb.free
      modifies this
      ensures Writing(h, old(files[h].pf), offset0, src, target, old(View(files[h].pf)), old(Now()), old(sb))
      ensures n == |src|
    {
      ghost var f, view0, v0, sb0 := files[h].pf, View(files[h].pf), Now(), sb;
      var k, offset := 0, offset0;
      var b := NONE;
      ghost var done: seq<Byte> := [];
      WritingStarts(h, offset0, target);
      while k < |src|
        invariant 0 <= k <= |src| && done == src[..k] && offset == offset0 + k && NONE <= b < |buffers|
        invariant Writing(h, f, offset0, done, target, view0, v0, sb0)
      {
        var count;
        b, count, done := WriteNext(h, f, src, k, done, offset, offset0, b, writeThrough, target, view0, v0, sb0);
        offset := offset + count;
        k := k + count;
      }
      assert done == src;
      n := k;
    }

    lemma WritingStarts(h: nat, offset0: nat, target: nat)
      requires Ready() && h < |files| && HasView(files[h].pf) && offset0 <= inodes[files[h].pf].size && offset0 <= target
      requires 0 < clusterBytes && CostTo(files[h].pf, target) <= sb.free
      ensures Writing(h, files[h].pf, offset0, [], target, View(files[h].pf), Now(), sb)
    {
      assert Overwrite(View(files[h].pf), offset0, []) == View(files[h].pf);
    }

    /** How many of the bytes from k on to `size` go into the cluster at `offset`. */
    static method Piece(offset: nat, clusterBytes: nat, k: nat, size: nat) returns (count: nat)
      requires 0 < clusterBytes && k < size
      ensures 0 < count && k + count <= size && Rem(offset + INODE_BYTES, clusterBytes) + count <= clusterBytes
    {
      QuotRem(offset + INODE_BYTES, clusterBytes);
      var start := (offset + INODE_BYTES) % clusterBytes;
      count := clusterBytes - start;
      if k + count > size {
        count := size - k;
      }
    }

    /** As much as goes into one cluster. */
    method WriteNext(h: nat, ghost f: nat, src: seq<Byte>, k: nat, ghost done: seq<Byte>, offset: nat, ghost offset0: nat,
                     hint: int, writeThrough: bool, ghost target: nat, ghost view0: seq<Byte>, ghost v0: Snapshot,
                     ghost sb0: SuperBlock) returns (b: nat, count: nat, ghost done': seq<Byte>)
      requires k < |src| && done == src[..k] && offset == offset0 + k && NONE <= hint < |buffers| && offset0 + |src| <= target
      requires Writing(h, f, offset0, done, target, view0, v0, sb0)
      modifies this
      ensures b < |buffers| && 0 < count && k + count <= |src| && done' == src[..k + count]
      ensures Writing(h, f, offset0, done', target, view0, v0, sb0)
    {
      count := Piece(offset, clusterBytes, k, |src|);
      done' := done + src[k..k + count];
      b := WriteOn(h, f, offset, offset0, done, src[k..k + count], hint, writeThrough, target, view0, v0, sb0);
    }

    method WriteOn(h: nat, ghost f: nat, offset: nat, ghost offset0: nat, ghost done: seq<Byte>, piece: seq<Byte>, hint: int,
                   writeThrough: bool, ghost target: nat, ghost view0: seq<Byte>, ghost v0: Snapshot, ghost sb0: SuperBlock)
        returns (b: nat)
      requires Writing(h, f, offset0, done, target, view0, v0, sb0) && offset == offset0 + |done| && NONE <= hint < |buffers|
      requires piece != [] && Rem(offset + INODE_BYTES, clusterBytes) + |piece| <= clusterBytes && offset + |piece| <= target
      modifies this
      ensures b < |buffers| && Writing(h, f, offset0, done + piece, target, view0, v0, sb0)
    {
      b := WritePiece(h, piece, offset, hint, writeThrough, target);
      WritingOn(h, f, offset0, done, piece, target, view0, v0, sb0, old(Now()), old(View(f)));
    }

    /** The piece has been written since v1, where `done` had been written. */
    lemma WritingOn(h: nat, f: nat, offset0: nat, done: seq<Byte>, piece: seq<Byte>, target: nat, view0: seq<Byte>, v0: Snapshot,
                    sb0: SuperBlock, v1: Snapshot, view1: seq<Byte>)
      requires Ready() && h < |files| && files[h].pf == f && HasView(f) && 0 < clusterBytes && offset0 + |done + piece| <= target
      requires offset0 <= |view0| && view1 == Overwrite(view0, offset0, done) && OnlyFile(f, v0, v1, Plan())
      requires View(f) == Overwrite(view1, offset0 + |done|, piece) && OnlyFile(f, v1, Now(), Plan())
      requires sb == sb0.(free := sb.free) && CostTo(f, target) <= sb.free
      ensures Writing(h, f, offset0, done + piece, target, view0, v0, sb0)
    {
      OverwriteTwice(view0, offset0, done, piece);
      OnlyFileTwice(f, v0, v1, Now(), Plan());
    }

    /** The bytes of every other file are those of v0. */
    ghost predicate OthersSame(f: int, v0: Snapshot)
      reads `store, `inodes, `chains, `files, `owner
    {
      SameBytes(f, v0, Now(), clusterBytes)
    }

    lemma TouchedOthers(f: nat, v0: Snapshot, sb0: SuperBlock)
      requires Ready() && Touched(f, v0, sb0)
      ensures OthersSame(f, v0)
    {
      forall g | 0 <= g < |inodes| && g != f && HasContent(v0.store, v0.inodes[g], v0.chains[g], clusterBytes)
        ensures HasView(g) && View(g) == Content(v0.store, v0.inodes[g], v0.chains[g], clusterBytes)
      {
        OthersKept(f, v0, Now(), Plan(), clusterBytes, g);
      }
    }

    /** Sets the pointer of an open file. */
    method SetPointer(h: nat, pointer: nat)
      requires Ready() && h < |files|
      modifies `files
      ensures Ready() && files == old(files)[h := old(files)[h].(pointer := pointer)]
    {
      PointerMoved(Now(), pointersPerCluster, h, pointer);
      files := files[h := files[h].(pointer := pointer)];
    }

    /** leanfs_lseek: -22 for an unknown origin; a position before the start is returned, but not taken. */
    method Lseek(h: nat, offset: int, whence: int) returns (res: int)
      requires Ready() && h < |files|
      modifies `files
      ensures Ready() && |files| == |old(files)|
      ensures var origin := if whence == 0 then 0 else if whence == 1 then old(files)[h].pointer else inodes[old(files)[h].pf].size;
        if whence !in {0, 1, 2} then res == -22 && files == old(files)
        else res == offset + origin && files == if res < 0 then old(files) else old(files)[h := old(files)[h].(pointer := res)]
    {
      res := -22;
      if whence == 0 {
        res := offset;
      } else if whence == 1 {
        res := offset + files[h].pointer;
      } else if whence == 2 {
        res := offset + inodes[files[h].pf].size;
      }
      if res >= 0 {
        SetPointer(h, res);
      }
    }

    /** leanfs_write: the bytes go to the file pointer, or to the end of a file opened for appending; a gap
        before the pointer is filled with zeros. The result counts the zeros too. */
    method Write(h: nat, buffer: seq<Byte>, append: bool, writeThrough: bool) returns (n: nat)
      requires Ready() && h < |files| && HasView(files[h].pf) && 0 < clusterBytes
      requires buffer != [] ==>
        CostTo(files[h].pf, (if append then inodes[files[h].pf].size else files[h].pointer) + |buffer|) <= sb.free
      modifies this
      ensures Ready() && |files| == |old(files)| && files[h].pf == old(files[h].pf) && HasView(files[h].pf)
      ensures var s, f := old(View(files[h].pf)), files[h].pf; var p := if append then |s| else old(files)[h].pointer;
        if buffer == [] then View(f) == s && n == 0 && files[h].pointer == old(files)[h].pointer
        else View(f) == WrittenAt(s, p, buffer) && files[h].pointer == p + |buffer| && n == |buffer| + if |s| < p then p - |s| else 0
      ensures append || buffer == [] || ZeroBetween(View(files[h].pf), |old(View(files[h].pf))|, old(files)[h].pointer)
      ensures OthersSame(files[h].pf, old(Now()))
      ensures Touched(files[h].pf, old(Now()).(files := files), old(sb))
      ensures forall i :: 0 <= i < |files| && i != h ==> files[i].pf == old(files)[i].pf && files[i].pointer == old(files)[i].pointer
    {
      n := 0;
      if |buffer| == 0 {
        TouchedOthers(files[h].pf, Now(), sb);
        return;
      }
      if append {
        SetPointer(h, inodes[files[h].pf].size);
      }
      n := WriteAndMove(h, buffer, writeThrough);
    }

    /** The bytes go to the file pointer, which moves behind them. */
    method WriteAndMove(h: nat, buffer: seq<Byte>, writeThrough: bool) returns (n: nat)
      requires Ready() && h < |files| && HasView(files[h].pf) && 0 < clusterBytes && buffer != []
      requires CostTo(files[h].pf, files[h].pointer + |buffer|) <= sb.free
      modifies this
      ensures Ready() && |files| == |old(files)| && files[h].pf == old(files[h].pf) && HasView(files[h].pf)
      ensures var s, p := old(View(files[h].pf)), old(files)[h].pointer;
        && View(files[h].pf) == WrittenAt(s, p, buffer) && files[h].pointer == p + |buffer|
        && n == |buffer| + if |s| < p then p - |s| else 0
      ensures OthersSame(files[h].pf, old(Now()))
      ensures Touched(files[h].pf, old(Now()).(files := files), old(sb))
      ensures forall i :: 0 <= i < |files| && i != h ==> files[i].pf == old(files)[i].pf && files[i].pointer == old(files)[i].pointer
    {
      n := WriteAtPointer(h, buffer, writeThrough);
      SetPointer(h, files[h].pointer + |buffer|);
    }

    method WriteAtPointer(h: nat, buffer: seq<Byte>, writeThrough: bool) returns (n: nat)
      requires Ready() && h < |files| && HasView(files[h].pf) && 0 < clusterBytes && buffer != []
      requires CostTo(files[h].pf, files[h].pointer + |buffer|) <= sb.free
      modifies this
      ensures Ready() && |files| == |old(files)| && files[h].pf == old(files[h].pf) && HasView(files[h].pf)
      ensures View(files[h].pf) == WrittenAt(old(View(files[h].pf)), old(files)[h].pointer, buffer)
      ensures n == |buffer| + if old(inodes[files[h].pf].size) < old(files)[h].pointer
                              then old(files)[h].pointer - old(inodes[files[h].pf].size) else 0
      ensures OthersSame(files[h].pf, old(Now()))
      ensures Touched(files[h].pf, old(Now()), old(sb))
    {
      ghost var f, s, p := files[h].pf, View(files[h].pf), files[h].pointer;
      PaddedThenWritten(s, p, buffer);
      n := FillGap(h, writeThrough, p + |buffer|);
      ghost var v1 := Now();
      var res := DoWrite(h, buffer, files[h].pointer, writeThrough, p + |buffer|);
      OnlyFileTwice(f, old(Now()), v1, Now(), Plan());
      TouchedOthers(f, old(Now()), old(sb));
      n := n + res;
    }

    /** Zeros are written up to the pointer if it is past the end. */
    method FillGap(h: nat, writeThrough: bool, ghost target: nat) returns (n: nat)
      requires Ready() && h < |files| && HasView(files[h].pf) && 0 < clusterBytes
      requires files[h].pointer <= target && CostTo(files[h].pf, target) <= sb.free
      modifies this
      ensures Ready() && |files| == |old(files)| && files[h].pf == old(files[h].pf) && HasView(files[h].pf)
      ensures View(files[h].pf) == Padded(old(View(files[h].pf)), old(files)[h].pointer)
      ensures n == if old(inodes[files[h].pf].size) < old(files)[h].pointer
                   then old(files)[h].pointer - old(inodes[files[h].pf].size) else 0
      ensures Touched(files[h].pf, old(Now()), old(sb)) && CostTo(files[h].pf, target) <= sb.free
    {
      n := 0;
      if files[h].pointer > inodes[files[h].pf].size {
        var gap := files[h].pointer - inodes[files[h].pf].size;
        n := DoWrite(h, Zeros(gap), inodes[files[h].pf].size, writeThrough, target);
      }
    }

    /** leanfs_ftruncate: the file is cut or extended with zeros to `length` bytes; -22 for a negative length.
        An extension does not return 0 but the number of zeros written. */
    method Ftruncate(h: nat, length: int, writeThrough: bool) returns (res: int)
      requires Ready() && h < |files| && HasView(files[h].pf) && 0 < clusterBytes
      requires length <= inodes[files[h].pf].size || CostTo(files[h].pf, length) <= sb.free
      modifies this
      ensures Ready() && |files| == |old(files)| && files[h].pf == old(files[h].pf) && HasView(files[h].pf)
      ensures if length < 0 then res == -22 && View(files[h].pf) == old(View(files[h].pf))
              else View(files[h].pf) == Resized(old(View(files[h].pf)), length)
      ensures length < 0 || (|View(files[h].pf)| == length && ZeroBetween(View(files[h].pf), |old(View(files[h].pf))|, length))
      ensures var size := old(inodes[files[h].pf].size); length >= 0 ==> res == if length > size then length - size else 0
      ensures OthersSame(files[h].pf, old(Now()))
      ensures forall i :: 0 <= i < |files| ==> files[i].pf == old(files)[i].pf && files[i].pointer == old(files)[i].pointer
      ensures var f := files[h].pf;
        if 0 <= length < old(inodes[f].size)
        then FreedUpTo(old(owner), owner, f, pointersPerCluster, inodes[f].count, old(inodes[f].count))
        else Touched(f, old(Now()), old(sb))
    {
      if length < 0 {
        TouchedOthers(files[h].pf, Now(), sb);
        return -22;
      }
      var size := inodes[files[h].pf].size;
      res := 0;
      if length < size {
        Shrink(h, length);
      } else if length > size {
        res := Extend(h, length, writeThrough);
      } else {
        TouchedOthers(files[h].pf, Now(), sb);
      }
    }

    /** The extending arm. */
    method Extend(h: nat, length: nat, writeThrough: bool) returns (n: nat)
      requires Ready() && h < |files| && HasView(files[h].pf) && 0 < clusterBytes && inodes[files[h].pf].size < length
      requires CostTo(files[h].pf, length) <= sb.free
      modifies this
      ensures Ready() && |files| == |old(files)| && files[h].pf == old(files[h].pf) && HasView(files[h].pf)
      ensures View(files[h].pf) == Resized(old(View(files[h].pf)), length) && n == length - old(inodes[files[h].pf].size)
      ensures OthersSame(files[h].pf, old(Now())) && Touched(files[h].pf, old(Now()), old(sb))
    {
      var size := inodes[files[h].pf].size;
      ExtendedByZeros(View(files[h].pf), length);
      n := DoWrite(h, Zeros(length - size), size, writeThrough, length);
      TouchedOthers(files[h].pf, old(Now()), old(sb));
    }

    /** The shrinking arm: the clusters past the new end are freed, and no open file keeps a cached
        position among them. */
    method Shrink(h: nat, length: nat)
      requires Ready() && h < |files| && HasView(files[h].pf) && 0 < clusterBytes && length < inodes[files[h].pf].size
      modifies this
      ensures Ready() && |files| == |old(files)| && files[h].pf == old(files[h].pf) && HasView(files[h].pf)
      ensures View(files[h].pf) == old(View(files[h].pf))[..length]
      ensures OthersSame(files[h].pf, old(Now()))
      ensures forall i :: 0 <= i < |files| ==> files[i].pf == old(files)[i].pf && files[i].pointer == old(files)[i].pointer
      ensures var f := files[h].pf;
        FreedUpTo(old(owner), owner, f, pointersPerCluster, inodes[f].count, old(inodes[f].count))
    {
      var count := (length + INODE_BYTES + clusterBytes - 1) / clusterBytes;
      CutCount(inodes[files[h].pf], length, clusterBytes);
      CutTo(h, length, count);
    }

    /** The clusters that `length` bytes need are no more than the file has. */
    static lemma CutCount(p: Inode, length: nat, cb: nat)
      requires Filled(p, cb) && length <= p.size
      ensures (length + INODE_BYTES + cb - 1) / cb == Quot(length + INODE_BYTES - 1, cb) + 1 <= p.count
    {
      QuotRem(length + INODE_BYTES + cb - 1, cb);
      QuotNext(length + INODE_BYTES - 1, cb);
      QuotMono(length + INODE_BYTES - 1, p.size + INODE_BYTES - 1, cb);
    }

    method CutTo(h: nat, length: nat, count: nat)
      requires Ready() && h < |files| && HasView(files[h].pf) && length <= inodes[files[h].pf].size
      requires count == Quot(length + INODE_BYTES - 1, clusterBytes) + 1 <= inodes[files[h].pf].count
      modifies this
      ensures Ready() && |files| == |old(files)| && files[h].pf == old(files[h].pf) && HasView(files[h].pf)
      ensures View(files[h].pf) == old(View(files[h].pf))[..length] && inodes[files[h].pf].count == count
      ensures OthersSame(files[h].pf, old(Now()))
      ensures forall i :: 0 <= i < |files| ==> files[i].pf == old(files)[i].pf && files[i].pointer == old(files)[i].pointer
      ensures FreedUpTo(old(owner), owner, files[h].pf, pointersPerCluster, count, old(inodes[files[h].pf].count))
    {
      DeleteClusters(h, count);
      FinishShrink(files[h].pf, length, count, old(Now()), old(sb));
    }

    /** The size, and the cached positions. */
    method FinishShrink(f: nat, length: nat, count: nat, ghost v0: Snapshot, ghost sb0: SuperBlock)
      requires Based() && Shrunk(f, count, v0, sb0) && OthersSame(f, v0) && AllInStep(v0, clusterBytes)
      requires HasContent(v0.store, v0.inodes[f], v0.chains[f], clusterBytes) && length <= v0.inodes[f].size
      requires FilesOk(v0, pointersPerCluster) && ReservedOk(v0.owner, Plan())
      requires count == Quot(length + INODE_BYTES - 1, clusterBytes) + 1
      modifies `inodes, `files
      ensures Ready() && files == Reset(old(files), f, count) && HasView(f) && OthersSame(f, v0)
      ensures View(f) == Content(v0.store, v0.inodes[f], v0.chains[f], clusterBytes)[..length] && inodes[f].count == count
    {
      ghost var v1 := Now().(files := Reset(files, f, count));
      inodes := inodes[f := inodes[f].(size := length)];
      ValidatePos(f);
      SizeChanged(v1, pointersPerCluster, f, length);
      ShrunkViews(f, length, v0);
    }

    /** The views after a file has been cut: a prefix of its own, and all others as before. */
    lemma ShrunkViews(f: nat, length: nat, v0: Snapshot)
      requires Mapped() && f < |v0.inodes| == |v0.chains| == |inodes| && OnlyBitmap(v0.store, store, Plan())
      requires |files| == |v0.files| && forall h :: 0 <= h < |files| ==> files[h].pf == v0.files[h].pf
      requires FilesOk(v0, pointersPerCluster) && ReservedOk(v0.owner, Plan())
      requires AllInStep(v0, clusterBytes) && HasContent(v0.store, v0.inodes[f], v0.chains[f], clusterBytes)
      requires forall g :: 0 <= g < |v0.inodes| && g != f ==> inodes[g] == v0.inodes[g] && chains[g] == v0.chains[g]
      requires 0 < clusterBytes && length <= v0.inodes[f].size
      requires |chains[f].cs| == Quot(length + INODE_BYTES - 1, clusterBytes) + 1 <= |v0.chains[f].cs|
      requires chains[f].cs == v0.chains[f].cs[..|chains[f].cs|]
      requires inodes[f] == v0.inodes[f].(size := length, count := |chains[f].cs|)
      ensures Ready() && HasView(f) && View(f) == Content(v0.store, v0.inodes[f], v0.chains[f], clusterBytes)[..length]
      ensures OthersSame(f, v0)
    {
      forall k | 0 <= k < |v0.chains[f].cs|
        ensures store[v0.chains[f].cs[k]] == v0.store[v0.chains[f].cs[k]]
      {
        assert OwnsData(v0.owner, v0.chains, f, k);
      }
      ContentCut(v0.store, store, v0.inodes[f], v0.chains[f], chains[f], clusterBytes, length);
      OthersUncut(f, v0);
    }

    /** n more clusters for a file, and a cut back to its old length: the same owners, the same files, the same
        superblock, the same marks in the bitmap. */
    method GrowAndCutBack(h: nat, n: nat)
      requires Mapped() && h < |files| && 0 < inodes[files[h].pf].count
      requires var ch := chains[files[h].pf]; Cost(|ch.cs|, |ch.ics|, pointersPerCluster, |ch.cs| + n) <= sb.free
      modifies this
      ensures Mapped() && owner == old(owner) && chains == old(chains) && sb == old(sb)
      ensures forall d: nat :: d < |owner| ==>
        (Marked(store, sb.bitmap, wordsPerCluster, |owner|, d) <==> Marked(old(store), sb.bitmap, wordsPerCluster, |owner|, d))
    {
      var count := inodes[files[h].pf].count;
      ghost var owners, chs := GrowBy(h, n);
      CutBack(h, count, old(Now()), old(sb), owners, chs);
    }

    /** The cut back after a run of appends since v0. */
    method CutBack(h: nat, count: nat, ghost v0: Snapshot, ghost sb0: SuperBlock, ghost owners: seq<seq<Owner>>, ghost chs: seq<Chain>)
      requires Mapped() && h < |files| && sb == sb0.(free := sb.free) && sb0.free == CountFree(v0.owner, |v0.owner|)
      requires Tracks(v0.store, sb.bitmap, wordsPerCluster, v0.owner) && FilesOk(v0, pointersPerCluster)
      requires var f := files[h].pf;
        && f < |inodes| && f < |v0.chains| && count == |v0.chains[f].cs| <= inodes[f].count
        && 0 < |owners| == |chs| && owners[0] == v0.owner && owners[|owners| - 1] == owner
        && chs[0] == v0.chains[f] && chs[|chs| - 1] == chains[f] && chains == v0.chains[f := chains[f]]
        && AppendRun(owners, chs, f, |owners| - 1)
      modifies this
      ensures Mapped() && owner == v0.owner && chains == v0.chains && sb == sb0
      ensures forall d: nat :: d < |owner| ==>
        (Marked(store, sb.bitmap, wordsPerCluster, |owner|, d) <==> Marked(v0.store, sb.bitmap, wordsPerCluster, |owner|, d))
    {
      var f := files[h].pf;
      DeleteClusters(h, count);
      ghost var v1 := Now().(files := Reset(files, f, count));
      ValidatePos(f);
      assert Now() == v1;
      RunThenDelete(owners, chs, v0.chains, f, pointersPerCluster, owner, v0.store, store, sb.bitmap, wordsPerCluster);
    }

    /** n appends, with the owners and the chain of the file before each of them and after the last. */
    method GrowBy(h: nat, n: nat) returns (ghost owners: seq<seq<Owner>>, ghost chs: seq<Chain>)
      requires Mapped() && h < |files| && 0 < inodes[files[h].pf].count
      requires var ch := chains[files[h].pf]; Cost(|ch.cs|, |ch.ics|, pointersPerCluster, |ch.cs| + n) <= sb.free
      modifies this
      ensures Mapped() && |files| == |old(files)| && files[h].pf == old(files[h].pf) && sb == old(sb).(free := sb.free)
      ensures |owners| == |chs| == n + 1 && owners[0] == old(owner) && owners[n] == owner
      ensures var f := files[h].pf; chs[0] == old(chains)[f] && chs[n] == chains[f] && chains == old(chains)[f := chains[f]]
      ensures AppendRun(owners, chs, files[h].pf, n) && inodes[files[h].pf].count == old(inodes[files[h].pf].count) + n
    {
      ghost var f, target, v0 := files[h].pf, |chains[files[h].pf].cs| + n, Now();
      owners, chs := [owner], [chains[f]];
      var k := 0;
      while k < n
        invariant 0 <= k <= n && Growing(h, f, k, target, v0, old(sb), owners, chs)
      {
        owners, chs := GrowOnce(h, f, k, target, v0, old(sb), owners, chs);
        k := k + 1;
      }
    }

    /** k of the appends up to `target` clusters are done, as seen from the state before. */
    ghost predicate Growing(h: nat, f: nat, k: nat, target: nat, v0: Snapshot, sb0: SuperBlock, owners: seq<seq<Owner>>, chs: seq<Chain>)
      reads this
    {
      && Mapped() && h < |files| == |v0.files| && files[h].pf == f < |inodes| == |v0.chains| && sb == sb0.(free := sb.free)
      && |owners| == |chs| == k + 1 && owners[0] == v0.owner && owners[k] == owner
      && chs[0] == v0.chains[f] && chs[k] == chains[f] && chains == v0.chains[f := chains[f]]
      && inodes[f].count == |v0.chains[f].cs| + k != 0 && k <= target - |v0.chains[f].cs|
      && Cost(|chains[f].cs|, |chains[f].ics|, pointersPerCluster, target) <= sb.free
      && AppendRun(owners, chs, f, k)
    }

    /** One of the appends. */
    method GrowOnce(h: nat, ghost f: nat, ghost k: nat, ghost target: nat, ghost v0: Snapshot, ghost sb0: SuperBlock,
                    ghost owners: seq<seq<Owner>>, ghost chs: seq<Chain>)
        returns (ghost owners': seq<seq<Owner>>, ghost chs': seq<Chain>)
      requires Growing(h, f, k, target, v0, sb0, owners, chs) && |v0.chains[f].cs| + k < target
      modifies this
      ensures Growing(h, f, k + 1, target, v0, sb0, owners', chs')
    {
      ghost var v, linked := Now(), NeedsLink(f);
      var c := AppendCluster(h);
      GrownIsStep(f, c, linked, v, Now(), Plan());
      RunLonger(owners, chs, f, k, owner, chains[f]);
      owners', chs' := owners + [owner], chs + [chains[f]];
    }
  }

  /** There is such a volume: backup, superblock, bitmap, an empty file and a free cluster. */
  method SmallestVolume() returns (v: Volume)
    ensures fresh(v) && v.Ready() && |v.files| == 1 && v.HasView(0) && v.View(0) == [] && v.sb.free == 1
  {
    var empty: seq<Byte> := seq(512, i => 0);
    var device := [empty, empty, WriteWord(empty, 0, 15), empty, empty];
    ghost var owners := [Reserved, Reserved, Reserved, Data(0, 0), Unowned];
    ghost var clusters := [Chain([3], [])];
    var node := Inode(3, 0, 1, seq(15, i => 0), 0);
    ReadWritten(empty, 0, 15, 0);
    FifteenMarks(device, owners);
    SmallestMap(Snapshot(device, [node], clusters, [], owners));
    v := new Volume.Mount(512, 1, SuperBlock(0, 5, 1, 2, empty), device, 2, [node], clusters, owners);
    var h := v.TakeFile(0);
    v.ReadyHasView(0);
  }

  /** An inode and the cluster it is in. */
  lemma SmallestMap(v: Snapshot)
    requires v.owner == [Reserved, Reserved, Reserved, Data(0, 0), Unowned] && v.chains == [Chain([3], [])] && v.files == []
    requires |v.inodes| == 1 && v.inodes[0].first == 3 && v.inodes[0].count == 1 && |v.inodes[0].dclusters| == 15
    ensures FilesOk(v, 127)
  {}

  /** The word 15 marks the first four clusters of five. */
  lemma FifteenMarks(device: seq<seq<Byte>>, owners: seq<Owner>)
    requires |device| == 5 && (forall c :: 0 <= c < 5 ==> |device[c]| == 4 * 128) && ReadWord(device[2], 0) == 15
    requires |owners| == 5 && forall c :: 0 <= c < 5 ==> (owners[c] == Unowned <==> c == 4)
    ensures Tracks(device, 2, 128, owners)
  {
    assert MapWord(device, 2, 128, 5, 0) == 15;
    assert !Bit(15, 4) && Bit(15, 3) && Bit(15, 2) && Bit(15, 1) && Bit(15, 0);
  }
}

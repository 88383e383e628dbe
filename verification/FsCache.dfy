/** The buffer cache of a volume: which buffers hold which clusters, and which one goes next. */
module FsCache {
  import opened FsWords

  datatype Buffer = Buffer(valid: bool, dirty: bool, cluster: nat, access: nat, data: seq<Byte>)

  /** No buffer at all, where a pointer to one may be passed. */
  const NONE: int := -1

  ghost predicate Holds(bufs: seq<Buffer>, i: int, c: nat) {
    0 <= i < |bufs| && bufs[i].valid && bufs[i].cluster == c
  }

  ghost predicate Buffered(bufs: seq<Buffer>, c: nat) {
    exists i :: Holds(bufs, i, c)
  }

  /** The contents of the volume are those of the buffer if a cluster has one, else those of the device. */
  ghost predicate Coherent(bufs: seq<Buffer>, dev: seq<seq<Byte>>, store: seq<seq<Byte>>) {
    && |dev| == |store|
    && (forall i, c: nat :: Holds(bufs, i, c) ==> c < |store| && bufs[i].data == store[c])
    && (forall i, j, c :: Holds(bufs, i, c) && Holds(bufs, j, c) ==> i == j)
    && (forall i :: 0 <= i < |bufs| && bufs[i].dirty ==> bufs[i].valid)
    && (forall c: nat :: c < |store| && dev[c] != store[c] ==> Buffered(bufs, c))
  }

  ghost predicate OlderThan(bufs: seq<Buffer>, i: nat, clock: nat)
    requires i < |bufs|
  {
    bufs[i].access <= clock
  }

  /** Stamps do not exceed the clock, and two buffers that have been used have different ones. */
  ghost predicate Stamped(bufs: seq<Buffer>, clock: nat) {
    && (forall i :: 0 <= i < |bufs| ==> OlderThan(bufs, i, clock))
    && (forall i, j :: 0 <= i < |bufs| && 0 <= j < |bufs| && bufs[i].access == bufs[j].access != 0 ==> i == j)
  }

  /** All of a volume's cache; cluster `super` is not read through it. */
  ghost predicate CacheOk(bufs: seq<Buffer>, clock: nat, dev: seq<seq<Byte>>, store: seq<seq<Byte>>, bytes: nat, super: nat) {
    && Coherent(bufs, dev, store) && Stamped(bufs, clock) && 2 <= |bufs|
    && (forall c :: 0 <= c < |store| ==> |store[c]| == bytes)
    && super < |store| && !Buffered(bufs, super)
  }

  lemma SameStamps(bufs: seq<Buffer>, bufs': seq<Buffer>, clock: nat)
    requires Stamped(bufs, clock) && |bufs'| == |bufs|
    requires forall i :: 0 <= i < |bufs| ==> bufs'[i].access == bufs[i].access
    ensures Stamped(bufs', clock)
  {
    forall i | 0 <= i < |bufs'|
      ensures OlderThan(bufs', i, clock)
    {
      assert OlderThan(bufs, i, clock);
    }
  }

  lemma SameHolds(bufs: seq<Buffer>, bufs': seq<Buffer>, c: nat)
    requires forall i :: Holds(bufs', i, c) <==> Holds(bufs, i, c)
    ensures Buffered(bufs', c) <==> Buffered(bufs, c)
  {
    if Buffered(bufs, c) {
      var i :| Holds(bufs, i, c);
      assert Holds(bufs', i, c);
    }
  }

  lemma NewStamp(bufs: seq<Buffer>, clock: nat, b: nat)
    requires Stamped(bufs, clock) && b < |bufs|
    ensures Stamped(bufs[b := bufs[b].(access := clock + 1)], clock + 1)
  {
    var bufs' := bufs[b := bufs[b].(access := clock + 1)];
    forall i | 0 <= i < |bufs'|
      ensures OlderThan(bufs', i, clock + 1) && (i != b ==> bufs'[i].access <= clock)
    {
      assert OlderThan(bufs, i, clock);
    }
  }

  /** The buffer flush_buffer has written, and the device after it. */
  function Flushed(b: Buffer): Buffer {
    b.(dirty := false)
  }

  function Written(dev: seq<seq<Byte>>, b: Buffer): seq<seq<Byte>> {
    if (b.valid || b.dirty) && b.cluster < |dev| then dev[b.cluster := b.data] else dev
  }

  lemma FlushKeeps(bufs: seq<Buffer>, clock: nat, dev: seq<seq<Byte>>, store: seq<seq<Byte>>, bytes: nat, super: nat, i: nat)
    requires CacheOk(bufs, clock, dev, store, bytes, super) && i < |bufs|
    ensures CacheOk(bufs[i := Flushed(bufs[i])], clock, Written(dev, bufs[i]), store, bytes, super)
    ensures bufs[i].dirty ==> bufs[i].valid
    ensures bufs[i].valid ==> bufs[i].cluster < |dev| && Written(dev, bufs[i])[bufs[i].cluster] == store[bufs[i].cluster]
    ensures forall c: nat :: Buffered(bufs[i := Flushed(bufs[i])], c) <==> Buffered(bufs, c)
    ensures forall c: nat :: c < |store| && dev[c] == store[c] ==> Written(dev, bufs[i])[c] == store[c]
  {
    var bufs', dev' := bufs[i := Flushed(bufs[i])], Written(dev, bufs[i]);
    assert bufs[i].valid ==> Holds(bufs, i, bufs[i].cluster);
    assert forall j, c: nat :: Holds(bufs', j, c) <==> Holds(bufs, j, c);
    forall c: nat
      ensures Buffered(bufs', c) <==> Buffered(bufs, c)
    {
      SameHolds(bufs, bufs', c);
    }
    SameStamps(bufs, bufs', clock);
  }

  /** Loading an unbuffered cluster into a buffer whose old contents are on the device. */
  lemma LoadKeeps(bufs: seq<Buffer>, clock: nat, dev: seq<seq<Byte>>, store: seq<seq<Byte>>, bytes: nat, super: nat,
                  i: nat, c: nat) returns (bufs': seq<Buffer>)
    requires CacheOk(bufs, clock, dev, store, bytes, super) && i < |bufs|
    requires c < |store| && !Buffered(bufs, c) && c != super
    requires bufs[i].valid ==> bufs[i].cluster < |dev| && dev[bufs[i].cluster] == store[bufs[i].cluster]
    ensures |dev| == |store| && bufs' == bufs[i := Buffer(true, false, c, bufs[i].access, dev[c])]
    ensures CacheOk(bufs', clock, dev, store, bytes, super)
  {
    bufs' := bufs[i := Buffer(true, false, c, bufs[i].access, dev[c])];
    LoadCoherent(bufs, dev, store, i, c, bufs[i].access);
    SameStamps(bufs, bufs', clock);
    forall j
      ensures !Holds(bufs', j, super)
    {
      assert !Holds(bufs, j, super);
    }
  }

  lemma StampKeeps(bufs: seq<Buffer>, clock: nat, dev: seq<seq<Byte>>, store: seq<seq<Byte>>, bytes: nat, super: nat, i: nat)
    requires CacheOk(bufs, clock, dev, store, bytes, super) && i < |bufs|
    ensures CacheOk(bufs[i := bufs[i].(access := clock + 1)], clock + 1, dev, store, bytes, super)
  {
    StampCoherent(bufs, dev, store, i, clock + 1);
    NewStamp(bufs, clock, i);
    SameHolds(bufs, bufs[i := bufs[i].(access := clock + 1)], super);
  }

  lemma LoadCoherent(bufs: seq<Buffer>, dev: seq<seq<Byte>>, store: seq<seq<Byte>>, i: nat, c: nat, stamp: nat)
    requires Coherent(bufs, dev, store) && i < |bufs| && c < |store| && !Buffered(bufs, c)
    requires bufs[i].valid ==> bufs[i].cluster < |dev| && dev[bufs[i].cluster] == store[bufs[i].cluster]
    ensures Coherent(bufs[i := Buffer(true, false, c, stamp, dev[c])], dev, store)
  {
    var bufs' := bufs[i := Buffer(true, false, c, stamp, dev[c])];
    forall j, d
      ensures Holds(bufs', j, d) <==> if j == i then d == c else Holds(bufs, j, d)
    {}
    assert !Holds(bufs, i, c);
    forall j
      ensures !Holds(bufs, j, c)
    {}
    forall d: nat | d < |store| && dev[d] != store[d]
      ensures Buffered(bufs', d)
    {
      assert Buffered(bufs, d);
      var j :| Holds(bufs, j, d);
      assert Holds(bufs', j, d);
    }
  }

  /** Writing to a buffer changes the contents of its cluster, whether or not it is marked dirty. */
  lemma PokeCoherent(bufs: seq<Buffer>, dev: seq<seq<Byte>>, store: seq<seq<Byte>>, i: nat, data: seq<Byte>, dirty: bool)
    requires Coherent(bufs, dev, store) && i < |bufs| && bufs[i].valid
    ensures bufs[i].cluster < |store|
    ensures Coherent(bufs[i := bufs[i].(data := data, dirty := dirty)], dev, store[bufs[i].cluster := data])
  {
    var c := bufs[i].cluster;
    assert Holds(bufs, i, c);
    var bufs', store' := bufs[i := bufs[i].(data := data, dirty := dirty)], store[c := data];
    forall j, d
      ensures Holds(bufs', j, d) <==> Holds(bufs, j, d)
    {}
    forall d: nat | d < |store| && dev[d] != store'[d]
      ensures Buffered(bufs', d)
    {
      if d == c {
        assert Holds(bufs', i, d);
      } else {
        assert Buffered(bufs, d);
        var j :| Holds(bufs, j, d);
        assert Holds(bufs', j, d);
      }
    }
  }

  lemma DirtyKeeps(bufs: seq<Buffer>, clock: nat, dev: seq<seq<Byte>>, store: seq<seq<Byte>>, bytes: nat, super: nat,
                   i: nat, data: seq<Byte>, dirty: bool)
    requires CacheOk(bufs, clock, dev, store, bytes, super) && i < |bufs| && bufs[i].valid && |data| == bytes
    ensures bufs[i].cluster < |store|
    ensures CacheOk(bufs[i := bufs[i].(data := data, dirty := dirty)], clock, dev, store[bufs[i].cluster := data], bytes, super)
    ensures bufs[i].data == store[bufs[i].cluster]
    ensures forall c: nat :: Buffered(bufs[i := bufs[i].(data := data, dirty := dirty)], c) <==> Buffered(bufs, c)
  {
    var bufs' := bufs[i := bufs[i].(data := data, dirty := dirty)];
    assert Holds(bufs, i, bufs[i].cluster);
    PokeCoherent(bufs, dev, store, i, data, dirty);
    SameStamps(bufs, bufs', clock);
    forall c: nat
      ensures Buffered(bufs', c) <==> Buffered(bufs, c)
    {
      SameHolds(bufs, bufs', c);
    }
  }

  /** A write to the device behind the cache, to a cluster that is not buffered. */
  lemma DirectWrite(bufs: seq<Buffer>, clock: nat, dev: seq<seq<Byte>>, store: seq<seq<Byte>>, bytes: nat, super: nat,
                    k: nat, s: seq<Byte>)
    requires CacheOk(bufs, clock, dev, store, bytes, super) && k + |s| <= bytes
    ensures |dev| == |store| && dev[super] == store[super] && |store[super]| == bytes
    ensures CacheOk(bufs, clock, dev[super := Splice(dev[super], k, s)], store[super := Splice(store[super], k, s)], bytes, super)
  {
    assert !Buffered(bufs, super);
    assert dev[super] == store[super];
    var dev', store' := dev[super := Splice(dev[super], k, s)], store[super := Splice(store[super], k, s)];
    forall i, c: nat | Holds(bufs, i, c)
      ensures c < |store'| && bufs[i].data == store'[c]
    {
      assert c != super;
    }
  }

  lemma AllWritten(bufs: seq<Buffer>, dev: seq<seq<Byte>>, store: seq<seq<Byte>>)
    requires Coherent(bufs, dev, store)
    requires forall i, c: nat :: Holds(bufs, i, c) ==> c < |dev| && dev[c] == store[c]
    ensures dev == store
  {
    forall c: nat | c < |store|
      ensures dev[c] == store[c]
    {
      if Buffered(bufs, c) {
        var i :| Holds(bufs, i, c);
      }
    }
  }

  /** A new stamp changes nothing else. */
  lemma StampCoherent(bufs: seq<Buffer>, dev: seq<seq<Byte>>, store: seq<seq<Byte>>, i: nat, stamp: nat)
    requires Coherent(bufs, dev, store) && i < |bufs|
    ensures Coherent(bufs[i := bufs[i].(access := stamp)], dev, store)
  {
    var bufs' := bufs[i := bufs[i].(access := stamp)];
    forall j, d
      ensures Holds(bufs', j, d) <==> Holds(bufs, j, d)
    {}
    forall d: nat | d < |store| && dev[d] != store[d]
      ensures Buffered(bufs', d)
    {
      var j :| Holds(bufs, j, d);
      assert Holds(bufs', j, d);
    }
  }

  /** How many of the first n buffers have been used after buffer b. */
  function Younger(bufs: seq<Buffer>, b: nat, n: nat): (k: nat)
    requires b < |bufs| && n <= |bufs|
    ensures k <= n
  {
    if n == 0 then 0 else Younger(bufs, b, n - 1) + if bufs[b].access < bufs[n - 1].access then 1 else 0
  }

  ghost predicate LeastRecent(bufs: seq<Buffer>, v: nat) {
    v < |bufs| && forall i :: 0 <= i < |bufs| ==> bufs[v].access <= bufs[i].access
  }

  lemma {:induction false} AllYounger(bufs: seq<Buffer>, b: nat, n: nat)
    requires b < |bufs| && n <= |bufs| && forall i :: 0 <= i < n && i != b ==> bufs[b].access < bufs[i].access
    ensures Younger(bufs, b, n) == if b < n then n - 1 else n
  {
    if n != 0 {
      AllYounger(bufs, b, n - 1);
    }
  }

  /** A buffer that has been used is not the least recently used one while fewer than all the others
      have been used after it. */
  lemma NotYetLeast(bufs: seq<Buffer>, clock: nat, b: nat, v: nat)
    requires Stamped(bufs, clock) && LeastRecent(bufs, v) && b < |bufs| && bufs[b].access != 0
    requires Younger(bufs, b, |bufs|) + 1 < |bufs|
    ensures v != b
  {
    if v == b {
      AllYounger(bufs, b, |bufs|);
    }
  }

  /** One use of another buffer makes at most one more buffer younger than b. */
  lemma {:induction false} OneYounger(bufs: seq<Buffer>, bufs': seq<Buffer>, b: nat, i: nat, n: nat)
    requires b < |bufs| == |bufs'| && i < |bufs| && i != b && n <= |bufs|
    requires forall j :: 0 <= j < |bufs| && j != i ==> bufs'[j].access == bufs[j].access
    ensures Younger(bufs', b, n) <= Younger(bufs, b, n) + if i < n then 1 else 0
  {
    if n != 0 {
      OneYounger(bufs, bufs', b, i, n - 1);
    }
  }

  lemma {:induction false} NoneYounger(bufs: seq<Buffer>, clock: nat, b: nat, n: nat)
    requires b < |bufs| && n <= |bufs| && bufs[b].access == clock && Stamped(bufs, clock)
    ensures Younger(bufs, b, n) == 0
  {
    if n != 0 {
      assert OlderThan(bufs, n - 1, clock);
      NoneYounger(bufs, clock, b, n - 1);
    }
  }

  /** The buffer used last is not the least recently used one. */
  lemma LastIsNotLeast(bufs: seq<Buffer>, clock: nat, b: nat, v: nat)
    requires Stamped(bufs, clock) && 2 <= |bufs| && b < |bufs| && bufs[b].access == clock != 0 && LeastRecent(bufs, v)
    ensures v != b
  {
    NoneYounger(bufs, clock, b, |bufs|);
    NotYetLeast(bufs, clock, b, v);
  }

  /** A read without a hint that finds its cluster in no buffer takes over the least recently used buffer. */
  ghost predicate Missed(bufs: seq<Buffer>, bufs': seq<Buffer>, clock: nat, v: nat) {
    && LeastRecent(bufs, v) && Stamped(bufs, clock) && Stamped(bufs', clock + 1) && |bufs'| == |bufs|
    && bufs'[v].access == clock + 1 && forall i :: 0 <= i < |bufs| && i != v ==> bufs'[i] == bufs[i]
  }

  /** The buffer used last outlives as many such reads as there are other buffers. */
  lemma {:induction false} SurvivesMisses(states: seq<seq<Buffer>>, victims: seq<nat>, clock: nat, b: nat)
    requires |states| == |victims| + 1 && b < |states[0]| && states[0][b].access == clock != 0
    requires |victims| < |states[0]|
    requires forall i :: 0 <= i < |victims| ==> Missed(states[i], states[i + 1], clock + i, victims[i])
    requires Stamped(states[0], clock)
    ensures b !in victims
    ensures var last := states[|victims|];
      |last| == |states[0]| && last[b] == states[0][b] && Younger(last, b, |last|) <= |victims| && Stamped(last, clock + |victims|)
  {
    var n := |victims|;
    if n == 0 {
      NoneYounger(states[0], clock, b, |states[0]|);
    } else {
      SurvivesMisses(states[..n], victims[..n - 1], clock, b);
      assert Missed(states[n - 1], states[n], clock + (n - 1), victims[n - 1]);
      NotYetLeast(states[n - 1], clock + (n - 1), b, victims[n - 1]);
      OneYounger(states[n - 1], states[n], b, victims[n - 1], |states[n]|);
    }
  }
}

/** The queue of timed events as a value: the pending events by time, and the free slots. */
module EventQueue {

  datatype Timespec = Timespec(sec: int, nsec: int)

  predicate After(a: Timespec, b: Timespec) {
    a.sec > b.sec || (a.sec == b.sec && a.nsec > b.nsec)
  }

  datatype Event = Event(index: nat, time: Timespec, work: nat)

  datatype Queue = Queue(pending: seq<Event>, free: seq<nat>)

  /** How many events at the front are strictly earlier than t. */
  function Spot(es: seq<Event>, t: Timespec): (k: nat)
    ensures k <= |es|
  {
    if es == [] || !After(t, es[0].time) then 0 else 1 + Spot(es[1..], t)
  }

  /** The queue after an event has been posted; without a free slot it stays as it is. */
  function Posted(q: Queue, t: Timespec, work: nat): Queue {
    if q.free == [] then q
    else
      var k := Spot(q.pending, t);
      Queue(q.pending[..k] + [Event(q.free[0], t, work)] + q.pending[k..], q.free[1..])
  }

  /** Where event i is among the pending ones. */
  function Find(es: seq<Event>, i: nat): (k: nat)
    ensures k <= |es| && (k < |es| ==> es[k].index == i) && forall j :: 0 <= j < k ==> es[j].index != i
  {
    if es == [] || es[0].index == i then 0 else 1 + Find(es[1..], i)
  }

  function Deleted(q: Queue, i: nat): Queue {
    var k := Find(q.pending, i);
    if k == |q.pending| then q else Queue(q.pending[..k] + q.pending[k + 1..], [i] + q.free)
  }

  ghost predicate Holds(es: seq<Event>, i: nat) {
    exists k :: 0 <= k < |es| && es[k].index == i
  }

  ghost predicate Pending(q: Queue, i: nat) {
    Holds(q.pending, i)
  }

  ghost predicate Apart(es: seq<Event>) {
    forall i, j :: 0 <= i < j < |es| ==> es[i].index != es[j].index
  }

  ghost predicate Distinct(xs: seq<nat>) {
    forall i, j :: 0 <= i < j < |xs| ==> xs[i] != xs[j]
  }

  ghost predicate Sorted(es: seq<Event>) {
    forall i, j :: 0 <= i < j < |es| ==> !After(es[i].time, es[j].time)
  }

  /** The pending events and the free slots partition the pool of n slots, and the events are by time. */
  ghost predicate QueueOk(q: Queue, n: nat) {
    && Apart(q.pending) && Distinct(q.free) && Sorted(q.pending)
    && (forall k :: 0 <= k < |q.pending| ==> q.pending[k].index < n)
    && (forall k :: 0 <= k < |q.free| ==> q.free[k] < n)
    && (forall i: nat :: i < n ==> (Pending(q, i) <==> i !in q.free))
  }

  lemma {:induction false} SpotSplits(es: seq<Event>, t: Timespec)
    requires Sorted(es)
    ensures forall i :: 0 <= i < Spot(es, t) ==> After(t, es[i].time)
    ensures forall i :: Spot(es, t) <= i < |es| ==> !After(t, es[i].time)
  {
    if es != [] && After(t, es[0].time) {
      SpotSplits(es[1..], t);
      forall i | 0 <= i < |es|
        ensures if i < Spot(es, t) then After(t, es[i].time) else !After(t, es[i].time)
      {
        assert i != 0 ==> es[i] == es[1..][i - 1];
      }
    }
  }

  /** Posting takes the first free slot and keeps the partition and the order. */
  lemma PostedOk(q: Queue, n: nat, t: Timespec, work: nat)
    requires QueueOk(q, n)
    ensures QueueOk(Posted(q, t, work), n)
  {
    if q.free != [] {
      var k, e, q' := Spot(q.pending, t), Event(q.free[0], t, work), Posted(q, t, work);
      SpotSplits(q.pending, t);
      assert !Pending(q, e.index);
      InsertedAt(q.pending, k, e);
      forall i: nat | i < n
        ensures Pending(q', i) <==> i !in q'.free
      {
        InsertedMember(q.pending, k, e, i);
        assert i in q.free <==> i == q.free[0] || i in q.free[1..];
      }
    }
  }

  lemma InsertedAt(es: seq<Event>, k: nat, e: Event)
    requires k <= |es| && Apart(es) && Sorted(es) && forall i :: 0 <= i < |es| ==> es[i].index != e.index
    requires forall i :: 0 <= i < k ==> After(e.time, es[i].time)
    requires forall i :: k <= i < |es| ==> !After(e.time, es[i].time)
    ensures Apart(es[..k] + [e] + es[k..]) && Sorted(es[..k] + [e] + es[k..])
  {
    var r := es[..k] + [e] + es[k..];
    assert forall i :: 0 <= i < |r| ==> r[i] == if i < k then es[i] else if i == k then e else es[i - 1];
  }

  lemma InsertedMember(es: seq<Event>, k: nat, e: Event, i: nat)
    requires k <= |es|
    ensures Holds(es[..k] + [e] + es[k..], i) <==> i == e.index || Holds(es, i)
  {
    var r := es[..k] + [e] + es[k..];
    if j :| 0 <= j < |es| && es[j].index == i {
      assert r[if j < k then j else j + 1].index == i;
    }
    if i == e.index {
      assert r[k].index == i;
    }
    if j :| 0 <= j < |r| && r[j].index == i {
      if j != k {
        assert es[if j < k then j else j - 1].index == i;
      }
    }
  }

  lemma RemovedAt(es: seq<Event>, k: nat)
    requires k < |es| && Apart(es) && Sorted(es)
    ensures Apart(es[..k] + es[k + 1..]) && Sorted(es[..k] + es[k + 1..])
  {
    var r := es[..k] + es[k + 1..];
    assert forall j :: 0 <= j < |r| ==> r[j] == es[if j < k then j else j + 1];
  }

  lemma RemovedMember(es: seq<Event>, k: nat, i: nat)
    requires k < |es| && Apart(es)
    ensures Holds(es[..k] + es[k + 1..], i) <==> i != es[k].index && Holds(es, i)
  {
    var r := es[..k] + es[k + 1..];
    if j :| 0 <= j < |es| && es[j].index == i {
      if j != k {
        assert r[if j < k then j else j - 1].index == i;
      }
    }
    if j :| 0 <= j < |r| && r[j].index == i {
      assert es[if j < k then j else j + 1].index == i;
    }
  }

  /** Deleting keeps the partition and the order. */
  lemma DeletedOk(q: Queue, n: nat, i: nat)
    requires QueueOk(q, n)
    ensures QueueOk(Deleted(q, i), n)
  {
    var k := Find(q.pending, i);
    if k < |q.pending| {
      assert Pending(q, i);
      RemovedAt(q.pending, k);
      forall x: nat | x < n
        ensures Pending(Deleted(q, i), x) <==> x !in [i] + q.free
      {
        RemovedMember(q.pending, k, x);
      }
    }
  }

  /** What a handler does to the queue while it runs. */
  datatype Op = Post(time: Timespec, work: nat) | Delete(index: nat)

  function Done(q: Queue, op: Op): Queue {
    match op
    case Post(t, w) => Posted(q, t, w)
    case Delete(i) => Deleted(q, i)
  }

  function AllDone(q: Queue, ops: seq<Op>): Queue
    decreases |ops|
  {
    if ops == [] then q else AllDone(Done(q, ops[0]), ops[1..])
  }

  predicate Due(e: Event, now: Timespec) {
    !After(e.time, now)
  }

  /** The due events at the front. */
  function DuePart(es: seq<Event>, now: Timespec): (r: seq<Event>)
    ensures r <= es
  {
    if es == [] || !Due(es[0], now) then [] else [es[0]] + DuePart(es[1..], now)
  }

  /** The operation posts to a later time, or deletes an event that is not due. */
  ghost predicate Polite(q: Queue, op: Op, now: Timespec) {
    match op
    case Post(t, w) => After(t, now)
    case Delete(i) => Find(q.pending, i) < |q.pending| ==> !Due(q.pending[Find(q.pending, i)], now)
  }

  ghost predicate AllPolite(q: Queue, ops: seq<Op>, now: Timespec)
    decreases |ops|
  {
    ops == [] || (Polite(q, ops[0], now) && AllPolite(Done(q, ops[0]), ops[1..], now))
  }

  lemma {:induction false} DueIsPrefix(es: seq<Event>, now: Timespec, k: nat)
    requires k <= |es| && (forall i :: 0 <= i < k ==> Due(es[i], now)) && (k < |es| ==> !Due(es[k], now))
    ensures DuePart(es, now) == es[..k]
  {
    if k != 0 {
      DueIsPrefix(es[1..], now, k - 1);
      assert es[..k] == [es[0]] + es[1..][..k - 1];
    }
  }

  lemma {:induction false} DueSplits(es: seq<Event>, now: Timespec)
    requires Sorted(es)
    ensures forall i :: 0 <= i < |es| ==> (Due(es[i], now) <==> i < |DuePart(es, now)|)
  {
    if es != [] && Due(es[0], now) {
      DueSplits(es[1..], now);
      forall i | 0 < i < |es|
        ensures Due(es[i], now) <==> i < |DuePart(es, now)|
      {
        assert es[i] == es[1..][i - 1];
      }
    }
  }

  lemma {:induction false} SpotAtLeast(es: seq<Event>, t: Timespec, d: nat)
    requires d <= |es| && forall i :: 0 <= i < d ==> After(t, es[i].time)
    ensures d <= Spot(es, t)
  {
    if d != 0 {
      SpotAtLeast(es[1..], t, d - 1);
    }
  }

  lemma PrefixKeepsDue(es: seq<Event>, es': seq<Event>, now: Timespec)
    requires Sorted(es) && var d := |DuePart(es, now)|; d <= |es'| && es'[..d] == es[..d] && (d < |es'| ==> !Due(es'[d], now))
    ensures DuePart(es', now) == DuePart(es, now)
  {
    var d := |DuePart(es, now)|;
    DueSplits(es, now);
    assert forall i :: 0 <= i < d ==> es'[i] == es'[..d][i] == es[i];
    DueIsPrefix(es', now, d);
  }

  lemma LaterPostKeepsDue(es: seq<Event>, now: Timespec, e: Event)
    requires Sorted(es) && After(e.time, now)
    ensures var k := Spot(es, e.time); DuePart(es[..k] + [e] + es[k..], now) == DuePart(es, now)
  {
    var d, k := |DuePart(es, now)|, Spot(es, e.time);
    DueSplits(es, now);
    SpotSplits(es, e.time);
    SpotAtLeast(es, e.time, d);
    PrefixKeepsDue(es, es[..k] + [e] + es[k..], now);
  }

  lemma LaterDeleteKeepsDue(es: seq<Event>, now: Timespec, k: nat)
    requires Sorted(es) && k < |es| && !Due(es[k], now)
    ensures DuePart(es[..k] + es[k + 1..], now) == DuePart(es, now)
  {
    DueSplits(es, now);
    PrefixKeepsDue(es, es[..k] + es[k + 1..], now);
  }

  /** A polite operation leaves the due events as they are. */
  lemma PoliteKeepsDue(q: Queue, n: nat, op: Op, now: Timespec)
    requires QueueOk(q, n) && Polite(q, op, now)
    ensures QueueOk(Done(q, op), n) && DuePart(Done(q, op).pending, now) == DuePart(q.pending, now)
  {
    match op {
      case Post(t, w) =>
        PostedOk(q, n, t, w);
        if q.free != [] {
          LaterPostKeepsDue(q.pending, now, Event(q.free[0], t, w));
        }
      case Delete(i) =>
        DeletedOk(q, n, i);
        if Find(q.pending, i) < |q.pending| {
          LaterDeleteKeepsDue(q.pending, now, Find(q.pending, i));
        }
    }
  }

  lemma {:induction false} AllPoliteKeepDue(q: Queue, n: nat, ops: seq<Op>, now: Timespec)
    requires QueueOk(q, n) && AllPolite(q, ops, now)
    ensures QueueOk(AllDone(q, ops), n) && DuePart(AllDone(q, ops).pending, now) == DuePart(q.pending, now)
    decreases |ops|
  {
    if ops != [] {
      PoliteKeepsDue(q, n, ops[0], now);
      AllPoliteKeepDue(Done(q, ops[0]), n, ops[1..], now);
    }
  }

  /** The queue after its first event has been taken off to be fired; its slot is free already. */
  function Popped(q: Queue): Queue
    requires q.pending != []
  {
    Queue(q.pending[1..], [q.pending[0].index] + q.free)
  }

  lemma PoppedOk(q: Queue, n: nat)
    requires QueueOk(q, n) && q.pending != []
    ensures QueueOk(Popped(q), n) && Popped(q) == Deleted(q, q.pending[0].index)
  {
    PoppedIsDeleted(q);
    DeletedOk(q, n, q.pending[0].index);
  }

  lemma PoppedIsDeleted(q: Queue)
    requires q.pending != []
    ensures Popped(q) == Deleted(q, q.pending[0].index)
  {
    assert q.pending[..0] + q.pending[1..] == q.pending[1..];
  }

  /** All handlers of a wake-up are polite; the k-th to run does what script(k) says. */
  ghost predicate PoliteRun(q: Queue, n: nat, now: Timespec, script: nat -> seq<Op>, k: nat)
    requires QueueOk(q, n)
    decreases |DuePart(q.pending, now)|
  {
    DuePart(q.pending, now) == [] ||
    ( PoppedOk(q, n);
      AllPolite(Popped(q), script(k), now) &&
      ( AllPoliteKeepDue(Popped(q), n, script(k), now);
        PoliteRun(AllDone(Popped(q), script(k)), n, now, script, k + 1)))
  }

  /** What has become of the queue in the end. */
  ghost function Woken(q: Queue, n: nat, now: Timespec, script: nat -> seq<Op>, k: nat): Queue
    requires QueueOk(q, n) && PoliteRun(q, n, now, script, k)
    decreases |DuePart(q.pending, now)|
  {
    if DuePart(q.pending, now) == [] then q
    else
      PoppedOk(q, n);
      AllPoliteKeepDue(Popped(q), n, script(k), now);
      Woken(AllDone(Popped(q), script(k)), n, now, script, k + 1)
  }

  lemma RunStep(q: Queue, n: nat, now: Timespec, script: nat -> seq<Op>, k: nat)
    requires QueueOk(q, n) && PoliteRun(q, n, now, script, k) && DuePart(q.pending, now) != []
    ensures AllPolite(Popped(q), script(k), now)
    ensures var q' := AllDone(Popped(q), script(k));
      && QueueOk(q', n) && PoliteRun(q', n, now, script, k + 1)
      && Woken(q', n, now, script, k + 1) == Woken(q, n, now, script, k)
      && DuePart(q'.pending, now) == DuePart(Popped(q).pending, now) == DuePart(q.pending, now)[1..]
  {
    PoppedOk(q, n);
    AllPoliteKeepDue(Popped(q), n, script(k), now);
  }

  /** After a polite wake-up nothing is due, and the slots and the pending events still partition the pool. */
  lemma {:induction false} WokenOk(q: Queue, n: nat, now: Timespec, script: nat -> seq<Op>, k: nat)
    requires QueueOk(q, n) && PoliteRun(q, n, now, script, k)
    ensures QueueOk(Woken(q, n, now, script, k), n) && DuePart(Woken(q, n, now, script, k).pending, now) == []
    decreases |DuePart(q.pending, now)|
  {
    if DuePart(q.pending, now) != [] {
      PoppedOk(q, n);
      AllPoliteKeepDue(Popped(q), n, script(k), now);
      WokenOk(AllDone(Popped(q), script(k)), n, now, script, k + 1);
    }
  }

  /** Handlers that only post to later times, whatever slots they get, are polite. */
  lemma {:induction false} LaterPostsArePolite(q: Queue, n: nat, ops: seq<Op>, now: Timespec)
    requires QueueOk(q, n) && forall i :: 0 <= i < |ops| ==> ops[i].Post? && After(ops[i].time, now)
    ensures AllPolite(q, ops, now)
    decreases |ops|
  {
    if ops != [] {
      PoliteKeepsDue(q, n, ops[0], now);
      LaterPostsArePolite(Done(q, ops[0]), n, ops[1..], now);
    }
  }

  lemma {:induction false} LaterPostsRun(q: Queue, n: nat, now: Timespec, script: nat -> seq<Op>, k: nat)
    requires QueueOk(q, n)
    requires forall m: nat, i: nat :: i < |script(m)| ==> script(m)[i].Post? && After(script(m)[i].time, now)
    ensures PoliteRun(q, n, now, script, k)
    decreases |DuePart(q.pending, now)|
  {
    if DuePart(q.pending, now) != [] {
      PoppedOk(q, n);
      LaterPostsArePolite(Popped(q), n, script(k), now);
      AllPoliteKeepDue(Popped(q), n, script(k), now);
      LaterPostsRun(AllDone(Popped(q), script(k)), n, now, script, k + 1);
    }
  }

  /** An event that is not due survives a wake-up whose handlers only post. */
  lemma {:induction false} NotDueStays(q: Queue, n: nat, now: Timespec, script: nat -> seq<Op>, k: nat, e: Event)
    requires QueueOk(q, n) && PoliteRun(q, n, now, script, k) && e in q.pending && !Due(e, now)
    requires forall m: nat, i: nat :: i < |script(m)| ==> script(m)[i].Post?
    ensures e in Woken(q, n, now, script, k).pending
    decreases |DuePart(q.pending, now)|
  {
    if DuePart(q.pending, now) != [] {
      PoppedOk(q, n);
      AllPoliteKeepDue(Popped(q), n, script(k), now);
      PoppedKeeps(q.pending, e);
      PostsKeep(Popped(q), script(k), e);
      NotDueStays(AllDone(Popped(q), script(k)), n, now, script, k + 1, e);
    }
  }

  lemma PoppedKeeps(es: seq<Event>, e: Event)
    requires e in es && e != es[0]
    ensures e in es[1..]
  {
    assert es == [es[0]] + es[1..];
  }

  lemma {:induction false} PostsKeep(q: Queue, ops: seq<Op>, e: Event)
    requires e in q.pending && forall i :: 0 <= i < |ops| ==> ops[i].Post?
    ensures e in AllDone(q, ops).pending
    decreases |ops|
  {
    if ops != [] {
      var k := Spot(q.pending, ops[0].time);
      assert q.pending == q.pending[..k] + q.pending[k..];
      PostsKeep(Done(q, ops[0]), ops[1..], e);
    }
  }

  /** The event with index i is off the list, its slot the first free one, and everything else as before. */
  ghost predicate TakenOut(q: Queue, q': Queue, i: nat) {
    q'.free == [i] + q.free && exists k: nat :: TakenOutAt(q.pending, q'.pending, i, k)
  }

  ghost predicate TakenOutAt(es: seq<Event>, es': seq<Event>, i: nat, k: nat) {
    k < |es| && es[k].index == i && es' == es[..k] + es[k + 1..]
  }

  lemma DeletedIsTakenOut(q: Queue, i: nat)
    ensures if Pending(q, i) then TakenOut(q, Deleted(q, i), i) else Deleted(q, i) == q
  {
    var k := Find(q.pending, i);
    if k < |q.pending| {
      assert TakenOutAt(q.pending, Deleted(q, i).pending, i, k);
    }
  }

  /** A time in nanoseconds. */
  ghost function Nanos(t: Timespec): int {
    t.sec * 1_000_000_000 + t.nsec
  }

  ghost predicate InSecond(t: Timespec) {
    0 <= t.nsec < 1_000_000_000
  }

  ghost predicate Timed(es: seq<Event>) {
    forall i :: 0 <= i < |es| ==> InSecond(es[i].time)
  }

  /** The order of times is that of their numbers. */
  lemma AfterIsGreater(a: Timespec, b: Timespec)
    requires InSecond(a) && InSecond(b)
    ensures After(a, b) <==> Nanos(a) > Nanos(b)
  {
    if a.sec < b.sec {
      assert Nanos(a) < (a.sec + 1) * 1_000_000_000 <= b.sec * 1_000_000_000;
    } else if b.sec < a.sec {
      assert Nanos(b) < (b.sec + 1) * 1_000_000_000 <= a.sec * 1_000_000_000;
    }
  }

  /** The events are by time, in numbers. */
  ghost predicate InTimeOrder(es: seq<Event>) {
    forall i, j :: 0 <= i < j < |es| ==> Nanos(es[i].time) <= Nanos(es[j].time)
  }

  lemma SortedIsTimeOrder(es: seq<Event>)
    requires Timed(es)
    ensures Sorted(es) <==> InTimeOrder(es)
  {
    forall i, j | 0 <= i < j < |es|
      ensures After(es[i].time, es[j].time) <==> Nanos(es[i].time) > Nanos(es[j].time)
    {
      AfterIsGreater(es[i].time, es[j].time);
    }
  }

  /** es' is es with e put in behind all events whose number is smaller and before all others. */
  ghost predicate PutInTime(es: seq<Event>, es': seq<Event>, e: Event) {
    exists k: nat :: PutAt(es, es', e, k)
  }

  ghost predicate PutAt(es: seq<Event>, es': seq<Event>, e: Event, k: nat) {
    && k <= |es| && es' == es[..k] + [e] + es[k..]
    && (forall i :: 0 <= i < k ==> Nanos(es[i].time) < Nanos(e.time))
    && (forall i :: k <= i < |es| ==> Nanos(e.time) <= Nanos(es[i].time))
  }

  /** An event has been posted in its place, and the events are by time, in numbers. */
  ghost predicate PlacedInTime(es: seq<Event>, es': seq<Event>, e: Event) {
    Timed(es) && InSecond(e.time) ==> PutInTime(es, es', e) && Timed(es') && InTimeOrder(es')
  }

  lemma PostedInTime(q: Queue, n: nat, t: Timespec, work: nat)
    requires QueueOk(q, n)
    ensures |q.pending| == n <==> q.free == []
    ensures q.free == [] || PlacedInTime(q.pending, Posted(q, t, work).pending, Event(q.free[0], t, work))
  {
    SlotsCounted(q, n);
    if q.free != [] && Timed(q.pending) && InSecond(t) {
      PostedOk(q, n, t, work);
      PostedInOrder(q, n, t, work);
    }
  }

  lemma PostedInOrder(q: Queue, n: nat, t: Timespec, work: nat)
    requires QueueOk(q, n) && QueueOk(Posted(q, t, work), n) && Timed(q.pending) && InSecond(t) && q.free != []
    ensures var es' := Posted(q, t, work).pending; PutInTime(q.pending, es', Event(q.free[0], t, work)) && Timed(es') && InTimeOrder(es')
  {
    SpotSplits(q.pending, t);
    forall i | 0 <= i < |q.pending|
      ensures After(t, q.pending[i].time) <==> Nanos(t) > Nanos(q.pending[i].time)
    {
      AfterIsGreater(t, q.pending[i].time);
    }
    assert PutAt(q.pending, Posted(q, t, work).pending, Event(q.free[0], t, work), Spot(q.pending, t));
    SortedIsTimeOrder(Posted(q, t, work).pending);
  }

  /** Pending events and free slots together are as many as there are slots. */
  lemma SlotsCounted(q: Queue, n: nat)
    requires QueueOk(q, n)
    ensures |q.pending| + |q.free| == n
  {
    var xs := seq(|q.pending|, i requires 0 <= i < |q.pending| => q.pending[i].index);
    var all := xs + q.free;
    forall i, j | 0 <= i < j < |all|
      ensures all[i] != all[j]
    {
      if i < |xs| <= j {
        assert Pending(q, xs[i]);
        assert all[j] in q.free;
      }
    }
    forall i: nat | i < n
      ensures i in all
    {
      if Pending(q, i) {
        var k :| 0 <= k < |q.pending| && q.pending[k].index == i;
        assert all[k] == i;
      }
    }
    Permutation(all, n);
  }

  /** A sequence without repetitions that holds just the numbers below n has n elements. */
  lemma {:induction false} Permutation(xs: seq<nat>, n: nat)
    requires Distinct(xs) && (forall i :: 0 <= i < |xs| ==> xs[i] < n) && forall i: nat :: i < n ==> i in xs
    ensures |xs| == n
  {
    if n != 0 {
      var m: nat := n - 1;
      assert m in xs;
      var k :| 0 <= k < |xs| && xs[k] == m;
      var ys := xs[..k] + xs[k + 1..];
      assert forall i :: 0 <= i < |ys| ==> ys[i] == xs[if i < k then i else i + 1];
      forall i: nat | i < m
        ensures i in ys
      {
        assert i in xs;
        var j :| 0 <= j < |xs| && xs[j] == i;
        assert ys[if j < k then j else j - 1] == i;
      }
      Permutation(ys, m);
    }
  }

  /** The operation posts to a later time, or deletes none of the events es that are due, in numbers. */
  ghost predicate Sparing(op: Op, es: seq<Event>, now: Timespec) {
    match op
    case Post(t, w) => InSecond(t) && Nanos(now) < Nanos(t)
    case Delete(i) => forall e :: e in es && Nanos(e.time) <= Nanos(now) ==> e.index != i
  }

  /** All that the handlers do is of that kind. */
  ghost predicate SparingScript(script: nat -> seq<Op>, es: seq<Event>, now: Timespec) {
    Timed(es) && InSecond(now) && forall k: nat, i: nat :: i < |script(k)| ==> Sparing(script(k)[i], es, now)
  }

  /** The events due are among es. */
  ghost predicate DueAmong(q: Queue, es: seq<Event>, now: Timespec) {
    forall e :: e in DuePart(q.pending, now) ==> e in es && Nanos(e.time) <= Nanos(now)
  }

  lemma DueInNumbers(q: Queue, now: Timespec)
    requires Sorted(q.pending) && Timed(q.pending) && InSecond(now)
    ensures DueAmong(q, q.pending, now)
    ensures forall i :: 0 <= i < |q.pending| ==> (Nanos(q.pending[i].time) <= Nanos(now) <==> i < |DuePart(q.pending, now)|)
  {
    DueSplits(q.pending, now);
    forall i | 0 <= i < |q.pending|
      ensures Due(q.pending[i], now) <==> Nanos(q.pending[i].time) <= Nanos(now)
    {
      AfterIsGreater(q.pending[i].time, now);
    }
  }

  lemma SparingIsPolite(q: Queue, es: seq<Event>, op: Op, now: Timespec)
    requires InSecond(now) && Sorted(q.pending) && DueAmong(q, es, now) && Sparing(op, es, now)
    ensures Polite(q, op, now)
  {
    match op {
      case Post(t, w) => AfterIsGreater(t, now);
      case Delete(i) =>
        var k, due := Find(q.pending, i), DuePart(q.pending, now);
        DueSplits(q.pending, now);
        assert forall j :: 0 <= j < |due| ==> due[j] == q.pending[j] && due[j] in due;
    }
  }

  lemma {:induction false} AllSparing(q: Queue, n: nat, es: seq<Event>, ops: seq<Op>, now: Timespec)
    requires QueueOk(q, n) && InSecond(now) && DueAmong(q, es, now)
    requires forall i :: 0 <= i < |ops| ==> Sparing(ops[i], es, now)
    ensures AllPolite(q, ops, now)
    decreases |ops|
  {
    if ops != [] {
      SparingIsPolite(q, es, ops[0], now);
      PoliteKeepsDue(q, n, ops[0], now);
      AllSparing(Done(q, ops[0]), n, es, ops[1..], now);
    }
  }

  /** Handlers that post to later times, in numbers, and delete no event due at the start are polite. */
  lemma {:induction false} SparingRun(q: Queue, n: nat, es: seq<Event>, now: Timespec, script: nat -> seq<Op>, k: nat)
    requires QueueOk(q, n) && InSecond(now) && DueAmong(q, es, now)
    requires forall m: nat, i: nat :: i < |script(m)| ==> Sparing(script(m)[i], es, now)
    ensures PoliteRun(q, n, now, script, k)
    decreases |DuePart(q.pending, now)|
  {
    if DuePart(q.pending, now) != [] {
      PoppedOk(q, n);
      assert DuePart(Popped(q).pending, now) == DuePart(q.pending, now)[1..];
      AllSparing(Popped(q), n, es, script(k), now);
      AllPoliteKeepDue(Popped(q), n, script(k), now);
      SparingRun(AllDone(Popped(q), script(k)), n, es, now, script, k + 1);
    }
  }
}

/** The links of the pool of event slots: two lists that share it. A list is what the links lead through
    from its head; posting and deleting move one slot from one list to the other, and so does the loop. */
module EventLinks {
  import opened EventQueue

  const NULL: int := -1

  /** The slot at position k of a list, or null past its end. */
  function SlotAt(xs: seq<nat>, k: nat): int {
    if k < |xs| then xs[k] else NULL
  }

  ghost predicate Hop(next: seq<int>, xs: seq<nat>, k: nat)
    requires k < |xs|
  {
    xs[k] < |next| && next[xs[k]] == SlotAt(xs, k + 1)
  }

  /** From `head` on, the next links lead through the slots xs in order. */
  ghost predicate Linked(next: seq<int>, head: int, xs: seq<nat>) {
    head == SlotAt(xs, 0) && forall k: nat {:trigger Hop(next, xs, k)} :: k < |xs| ==> Hop(next, xs, k)
  }

  lemma LinkedSame(next: seq<int>, next': seq<int>, head: int, xs: seq<nat>)
    requires Linked(next, head, xs) && |next'| == |next|
    requires forall k :: 0 <= k < |xs| && xs[k] < |next| ==> next'[xs[k]] == next[xs[k]]
    ensures Linked(next', head, xs)
  {
    forall k: nat | k < |xs|
      ensures Hop(next', xs, k)
    {
      assert Hop(next, xs, k);
    }
  }

  lemma LinkedTail(next: seq<int>, head: int, xs: seq<nat>)
    requires Linked(next, head, xs) && xs != []
    ensures xs[0] < |next| && Linked(next, next[xs[0]], xs[1..])
  {
    assert Hop(next, xs, 0);
    forall k: nat | k < |xs| - 1
      ensures Hop(next, xs[1..], k)
    {
      assert Hop(next, xs, k + 1);
    }
  }

  lemma LinkedPush(next: seq<int>, next': seq<int>, head: int, xs: seq<nat>, p: nat)
    requires Linked(next, head, xs) && p < |next| && p !in xs && next' == next[p := head]
    ensures Linked(next', p, [p] + xs)
  {
    forall k: nat | k < 1 + |xs|
      ensures Hop(next', [p] + xs, k)
    {
      if k != 0 {
        assert Hop(next, xs, k - 1);
      }
    }
  }

  /** Slot xs[k] occurs once in the list. */
  ghost predicate Once(xs: seq<nat>, k: nat)
    requires k < |xs|
  {
    forall i :: 0 <= i < |xs| && i != k ==> xs[i] != xs[k]
  }

  lemma LinkedInsert(next: seq<int>, next': seq<int>, head: int, head': int, xs: seq<nat>, k: nat, p: nat)
    requires Linked(next, head, xs) && k <= |xs| && p < |next| && p !in xs
    requires k == 0 ==> next' == next[p := SlotAt(xs, 0)] && head' == p
    requires 0 < k ==> xs[k - 1] < |next| && next' == next[xs[k - 1] := p][p := SlotAt(xs, k)] && head' == head && Once(xs, k - 1)
    ensures Linked(next', head', xs[..k] + [p] + xs[k..])
  {
    var ys := xs[..k] + [p] + xs[k..];
    forall i: nat | i < |ys|
      ensures Hop(next', ys, i)
    {
      if i < k {
        assert Hop(next, xs, i) && ys[i] == xs[i];
      } else if k < i {
        assert Hop(next, xs, i - 1) && ys[i] == xs[i - 1];
      }
    }
  }

  lemma LinkedRemove(next: seq<int>, next': seq<int>, head: int, head': int, xs: seq<nat>, k: nat)
    requires Linked(next, head, xs) && k < |xs|
    requires k == 0 ==> next' == next && head' == SlotAt(xs, 1)
    requires 0 < k ==> xs[k - 1] < |next| && next' == next[xs[k - 1] := SlotAt(xs, k + 1)] && head' == head && Once(xs, k - 1)
    ensures Linked(next', head', xs[..k] + xs[k + 1..])
  {
    var ys := xs[..k] + xs[k + 1..];
    forall i: nat | i < |ys|
      ensures Hop(next', ys, i)
    {
      var j := if i < k then i else i + 1;
      assert Hop(next, xs, j) && ys[i] == xs[j];
    }
  }

  function Indices(es: seq<Event>): (xs: seq<nat>)
    ensures |xs| == |es| && forall k :: 0 <= k < |es| ==> xs[k] == es[k].index
  {
    seq(|es|, k requires 0 <= k < |es| => es[k].index)
  }

  /** The slots hold the fields of the pending events. */
  ghost predicate Filled(times: seq<Timespec>, works: seq<nat>, es: seq<Event>) {
    forall k :: 0 <= k < |es| ==>
      es[k].index < |times| == |works| && times[es[k].index] == es[k].time && works[es[k].index] == es[k].work
  }

  /** The links of the pool describe the queue. */
  ghost predicate Describes(next: seq<int>, first: int, free: int, q: Queue) {
    Linked(next, first, Indices(q.pending)) && Linked(next, free, q.free)
  }

  ghost predicate Separate(xs: seq<nat>, ys: seq<nat>) {
    forall i :: 0 <= i < |xs| ==> xs[i] !in ys
  }

  /** A slot moves from the front of list fr to position k of list xs. */
  lemma RelinkPosted(next: seq<int>, next': seq<int>, first: int, first': int, free: int, xs: seq<nat>, fr: seq<nat>, k: nat)
    requires Linked(next, first, xs) && Linked(next, free, fr) && fr != [] && Separate(xs, fr) && Once(fr, 0) && k <= |xs|
    requires k == 0 ==> fr[0] < |next| && next' == next[fr[0] := SlotAt(xs, 0)] && first' == fr[0]
    requires 0 < k ==>
      && Once(xs, k - 1) && xs[k - 1] < |next| && fr[0] < |next|
      && next' == next[xs[k - 1] := fr[0]][fr[0] := SlotAt(xs, k)] && first' == first
    ensures Linked(next', first', xs[..k] + [fr[0]] + xs[k..]) && fr[0] < |next| && Linked(next', next[fr[0]], fr[1..])
  {
    LinkedInsert(next, next', first, first', xs, k, fr[0]);
    LinkedTail(next, free, fr);
    forall i | 0 <= i < |fr[1..]| && fr[1..][i] < |next|
      ensures next'[fr[1..][i]] == next[fr[1..][i]]
    {
      assert fr[1..][i] == fr[i + 1];
    }
    LinkedSame(next, next', next[fr[0]], fr[1..]);
  }

  /** A slot moves from position k of list xs to the front of list fr. */
  lemma RelinkDeleted(next: seq<int>, next1: seq<int>, next': seq<int>, first: int, first': int, free: int,
                      xs: seq<nat>, fr: seq<nat>, k: nat)
    requires Linked(next, first, xs) && Linked(next, free, fr) && Separate(xs, fr) && k < |xs| && Once(xs, k) && xs[k] < |next|
    requires k == 0 ==> next1 == next && first' == SlotAt(xs, 1)
    requires 0 < k ==> Once(xs, k - 1) && xs[k - 1] < |next| && next1 == next[xs[k - 1] := SlotAt(xs, k + 1)] && first' == first
    requires next' == next1[xs[k] := free]
    ensures Linked(next', first', xs[..k] + xs[k + 1..]) && Linked(next', xs[k], [xs[k]] + fr)
  {
    var ys := xs[..k] + xs[k + 1..];
    LinkedRemove(next, next1, first, first', xs, k);
    forall i | 0 <= i < |ys| && ys[i] < |next1|
      ensures next'[ys[i]] == next1[ys[i]]
    {
      assert ys[i] == xs[if i < k then i else i + 1];
    }
    LinkedSame(next1, next', first', ys);
    LinkedSame(next, next1, free, fr);
    LinkedPush(next1, next', free, fr, xs[k]);
  }

  /** What stands at position i after an event has been put in at k. */
  lemma PutInAt(es: seq<Event>, e: Event, k: nat, i: nat)
    requires k <= |es| && i <= |es|
    ensures (es[..k] + [e] + es[k..])[i] == if i < k then es[i] else if i == k then e else es[i - 1]
  {}

  lemma PostedFilled(times: seq<Timespec>, works: seq<nat>, es: seq<Event>, e: Event, k: nat)
    requires Filled(times, works, es) && k <= |es|
    requires e.index < |times| == |works| && times[e.index] == e.time && works[e.index] == e.work
    ensures Filled(times, works, es[..k] + [e] + es[k..])
  {
    var es' := es[..k] + [e] + es[k..];
    forall i | 0 <= i < |es'|
      ensures es'[i].index < |times| && times[es'[i].index] == es'[i].time && works[es'[i].index] == es'[i].work
    {
      PutInAt(es, e, k, i);
    }
  }

  lemma PostedIndices(es: seq<Event>, e: Event, k: nat)
    requires k <= |es|
    ensures Indices(es[..k] + [e] + es[k..]) == Indices(es)[..k] + [e.index] + Indices(es)[k..]
  {
    forall i: nat | i <= |es|
      ensures Indices(es[..k] + [e] + es[k..])[i] == (Indices(es)[..k] + [e.index] + Indices(es)[k..])[i]
    {
      PutInAt(es, e, k, i);
    }
  }

  lemma DeletedFields(times: seq<Timespec>, works: seq<nat>, q: Queue, i: nat)
    requires Filled(times, works, q.pending) && Find(q.pending, i) < |q.pending|
    ensures Filled(times, works, Deleted(q, i).pending)
    ensures var k, xs := Find(q.pending, i), Indices(q.pending);
      xs[k] == i && Indices(Deleted(q, i).pending) == xs[..k] + xs[k + 1..]
  {
    var k, es := Find(q.pending, i), Deleted(q, i).pending;
    assert forall j :: 0 <= j < |es| ==> es[j] == q.pending[if j < k then j else j + 1];
  }

  function Works(es: seq<Event>): seq<nat> {
    if es == [] then [] else [es[0].work] + Works(es[1..])
  }

  lemma ListsApart(q: Queue, n: nat)
    requires QueueOk(q, n)
    ensures Separate(Indices(q.pending), q.free) && (q.free != [] ==> Once(q.free, 0))
    ensures forall k: nat {:trigger Once(Indices(q.pending), k)} :: k < |q.pending| ==> Once(Indices(q.pending), k)
  {
    forall k | 0 <= k < |q.pending|
      ensures Indices(q.pending)[k] !in q.free
    {
      assert Pending(q, q.pending[k].index);
    }
  }

  /** The pool after the first free slot has been filled and linked in at position k. */
  lemma PoolPosted(next: seq<int>, next': seq<int>, first: int, first': int, free: int, free': int,
                   times: seq<Timespec>, works: seq<nat>, q: Queue, n: nat, time: Timespec, work: nat)
    requires QueueOk(q, n) && Describes(next, first, free, q) && q.free != [] && |next| == n
    requires Filled(times, works, q.pending) && |times| == |works| == n
    requires q.free[0] < n && free' == next[q.free[0]]
    requires var k, xs := Spot(q.pending, time), Indices(q.pending);
      if k == 0 then next' == next[q.free[0] := SlotAt(xs, 0)] && first' == q.free[0]
      else xs[k - 1] < n && next' == next[xs[k - 1] := q.free[0]][q.free[0] := SlotAt(xs, k)] && first' == first
    ensures QueueOk(Posted(q, time, work), n) && Describes(next', first', free', Posted(q, time, work))
    ensures Filled(times[q.free[0] := time], works[q.free[0] := work], Posted(q, time, work).pending)
  {
    var k, xs, p := Spot(q.pending, time), Indices(q.pending), q.free[0];
    PostedOk(q, n, time, work);
    ListsApart(q, n);
    if 0 < k {
      assert Once(xs, k - 1);
    }
    RelinkPosted(next, next', first, first', free, xs, q.free, k);
    assert forall i :: 0 <= i < |q.pending| ==> xs[i] != p;
    PostedFilled(times[p := time], works[p := work], q.pending, Event(p, time, work), k);
    PostedIndices(q.pending, Event(p, time, work), k);
  }

  /** The pool after event i has been unlinked and its slot freed. */
  lemma PoolDeleted(next: seq<int>, next1: seq<int>, next': seq<int>, first: int, first': int, free: int,
                    times: seq<Timespec>, works: seq<nat>, q: Queue, n: nat, i: nat)
    requires QueueOk(q, n) && Describes(next, first, free, q) && Filled(times, works, q.pending) && |next| == n
    requires Find(q.pending, i) < |q.pending| && |next1| == n && i < n && next' == next1[i := free]
    requires var k, xs := Find(q.pending, i), Indices(q.pending);
      if k == 0 then next1 == next && first' == next[i]
      else xs[k - 1] < n && next1 == next[xs[k - 1] := next[i]] && first' == first
    ensures QueueOk(Deleted(q, i), n) && Describes(next', first', i, Deleted(q, i)) && Filled(times, works, Deleted(q, i).pending)
  {
    var k, xs := Find(q.pending, i), Indices(q.pending);
    DeletedOk(q, n, i);
    ListsApart(q, n);
    DeletedFields(times, works, q, i);
    assert Hop(next, xs, k) && Once(xs, k);
    if 0 < k {
      assert Once(xs, k - 1);
    }
    RelinkDeleted(next, next1, next', first, first', free, xs, q.free, k);
  }

  /** Two lists that partition the n slots. */
  ghost predicate Partitions(next: seq<int>, first: int, free: int, n: nat, xs: seq<nat>, ys: seq<nat>) {
    && Linked(next, first, xs) && Linked(next, free, ys) && Distinct(xs) && Distinct(ys)
    && forall i: nat :: i < n ==> ((i in xs) != (i in ys))
  }

  lemma {:induction false} LinkedUnique(next: seq<int>, head: int, xs: seq<nat>, ys: seq<nat>)
    requires Linked(next, head, xs) && Linked(next, head, ys)
    ensures xs == ys
    decreases |xs|
  {
    if xs != [] && ys != [] {
      LinkedTail(next, head, xs);
      LinkedTail(next, head, ys);
      LinkedUnique(next, next[xs[0]], xs[1..], ys[1..]);
      assert xs == [xs[0]] + xs[1..] && ys == [ys[0]] + ys[1..];
    }
  }

  lemma {:induction false} LinkedFrom(next: seq<int>, head: int, xs: seq<nat>, k: nat)
    requires Linked(next, head, xs) && k < |xs|
    ensures xs[k] < |next| && Linked(next, next[xs[k]], xs[k + 1..])
    decreases k
  {
    LinkedTail(next, head, xs);
    if k != 0 {
      LinkedFrom(next, next[xs[0]], xs[1..], k - 1);
      assert xs[1..][k..] == xs[k + 1..];
    }
  }

  /** The wake-up loop's step on slot p: it goes to the free list, and the event behind it becomes the first. */
  function Stepped(next: seq<int>, p: nat, free: int): seq<int>
    requires p < |next|
  {
    next[p := free]
  }

  lemma StepOnFirst(next: seq<int>, first: int, free: int, n: nat, xs: seq<nat>, ys: seq<nat>, p: nat)
    requires Partitions(next, first, free, n, xs, ys) && n == |next| && p < n && p == first
    ensures Partitions(Stepped(next, p, free), next[p], p, n, xs[1..], [p] + ys)
  {
    var next' := Stepped(next, p, free);
    assert xs == [p] + xs[1..];
    LinkedTail(next, first, xs);
    LinkedSame(next, next', next[p], xs[1..]);
    LinkedPush(next, next', free, ys, p);
  }

  /** A step on a pending event that is not the first loses all events before it. */
  lemma StepOnLater(next: seq<int>, first: int, free: int, n: nat, xs: seq<nat>, ys: seq<nat>, k: nat, xs': seq<nat>, ys': seq<nat>)
    requires Partitions(next, first, free, n, xs, ys) && n == |next| && 0 < k < |xs| && xs[k] < n
    requires Linked(Stepped(next, xs[k], free), next[xs[k]], xs') && Linked(Stepped(next, xs[k], free), xs[k], ys')
    ensures xs[0] < n && xs[0] !in xs' && xs[0] !in ys'
  {
    var p := xs[k];
    var next' := Stepped(next, p, free);
    LinkedFrom(next, first, xs, k);
    assert Hop(next, xs, 0);
    LinkedSame(next, next', next[p], xs[k + 1..]);
    LinkedPush(next, next', free, ys, p);
    LinkedUnique(next', next[p], xs', xs[k + 1..]);
    LinkedUnique(next', p, ys', [p] + ys);
  }

  /** A step on a slot that is free already closes the free list to a ring. */
  lemma {:induction false} RingReached(next: seq<int>, next': seq<int>, head: int, ys: seq<nat>, k: nat, p: nat, zs: seq<nat>)
    requires Linked(next, head, ys) && k < |ys| && ys[k] == p && (forall i :: 0 <= i < k ==> ys[i] != p)
    requires |next'| == |next| && forall i :: 0 <= i < |next| && i != p ==> next'[i] == next[i]
    requires Linked(next', head, zs)
    ensures p in zs
    decreases k
  {
    if k != 0 {
      LinkedTail(next, head, ys);
      LinkedTail(next', head, zs);
      RingReached(next, next', next[ys[0]], ys[1..], k - 1, p, zs[1..]);
    }
  }

  /** The step keeps the partition exactly when p is the first pending event. */
  lemma StepExact(next: seq<int>, first: int, free: int, n: nat, xs: seq<nat>, ys: seq<nat>, p: nat)
    requires Partitions(next, first, free, n, xs, ys) && n == |next| && p < n
    ensures (exists xs': seq<nat>, ys': seq<nat> :: Partitions(Stepped(next, p, free), next[p], p, n, xs', ys')) <==> p == first
  {
    if p == first {
      StepOnFirst(next, first, free, n, xs, ys, p);
    } else {
      forall xs': seq<nat>, ys': seq<nat>
        ensures !Partitions(Stepped(next, p, free), next[p], p, n, xs', ys')
      {
        NoPartition(next, first, free, n, xs, ys, p, xs', ys');
      }
    }
  }

  lemma NoPartition(next: seq<int>, first: int, free: int, n: nat, xs: seq<nat>, ys: seq<nat>, p: nat, xs': seq<nat>, ys': seq<nat>)
    requires Partitions(next, first, free, n, xs, ys) && n == |next| && p < n && p != first
    ensures !Partitions(Stepped(next, p, free), next[p], p, n, xs', ys')
  {
    var next' := Stepped(next, p, free);
    if Linked(next', next[p], xs') && Linked(next', p, ys') {
      if p in xs {
        var k :| 0 <= k < |xs| && xs[k] == p;
        StepOnLater(next, first, free, n, xs, ys, k, xs', ys');
      } else {
        var k :| 0 <= k < |ys| && ys[k] == p;
        LinkedTail(next', p, ys');
        RingReached(next, next', free, ys, k, p, ys'[1..]);
      }
    }
  }

  /** Posting leaves the first pending event in place exactly when it is strictly earlier, or nothing is posted. */
  lemma HeadStays(q: Queue, n: nat, t: Timespec, work: nat)
    requires QueueOk(q, n) && q.pending != []
    ensures Posted(q, t, work).pending[0].index == q.pending[0].index <==> q.free == [] || After(t, q.pending[0].time)
  {
    if q.free != [] {
      assert Pending(q, q.pending[0].index);
    }
  }
}

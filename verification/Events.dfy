/** The pool of event slots. */
module Events {
  import opened EventQueue
  import opened EventLinks
  import opened WakeRun

  const MAX_EVENT: nat := 100

  /** The loop is at slot p and will end with the pool `goal` and with `all` fired. */
  ghost predicate Going(s: Slots, p: int, now: Timespec, script: nat -> seq<Op>, m: nat, fired: seq<nat>, goal: Slots, all: seq<nat>) {
    && Ends(s, p, now, script, |fired|, m) && (p == NULL || 0 <= p < |s.times|)
    && Run(s, p, now, script, |fired|, m).last == goal
    && fired + Works(Run(s, p, now, script, |fired|, m).fired) == all
  }

  lemma GoingStart(s: Slots, n: nat, now: Timespec, script: nat -> seq<Op>, m: nat)
    requires SlotsOk(s, n) && Ends(s, First(s), now, script, 0, m)
    ensures var o := Run(s, First(s), now, script, 0, m); Going(s, First(s), now, script, m, [], o.last, Works(o.fired))
  {
    if s.q.pending != [] {
      assert s.q.pending[0] in s.q.pending;
    }
  }

  lemma GoingStep(s: Slots, p: int, n: nat, now: Timespec, script: nat -> seq<Op>, m: nat, fired: seq<nat>, goal: Slots, all: seq<nat>)
    requires SlotsOk(s, n) && Going(s, p, now, script, m, fired, goal, all) && !Stops(s, p, now)
    ensures 0 < m && s.q.pending != [] && p == First(s)
    ensures var s' := Fired(s, script(|fired|));
      SlotsOk(s', n) && Going(s', Saved(s), now, script, m - 1, fired + [s.q.pending[0].work], goal, all)
  {
    var k, s' := |fired|, Fired(s, script(|fired|));
    FiredOk(s, n, script(k));
    MoveWork(fired, [s.q.pending[0]] + Run(s', Saved(s), now, script, k + 1, m - 1).fired);
    if 1 < |s.q.pending| {
      assert s.q.pending[1] in s.q.pending;
    }
  }

  lemma MoveWork(fired: seq<nat>, es: seq<Event>)
    requires es != []
    ensures fired + Works(es) == fired + [es[0].work] + Works(es[1..])
  {}

  class Pool {
    var next: seq<int>
    var times: seq<Timespec>
    var works: seq<nat>
    var firstevent: int
    var freeevents: int
    ghost var q: Queue

    ghost predicate Valid()
      reads this
    {
      && |next| == |times| == |works| == MAX_EVENT && QueueOk(q, MAX_EVENT)
      && Describes(next, firstevent, freeevents, q) && Filled(times, works, q.pending)
    }

    /** The queue with the times in the slots. */
    ghost function State(): Slots
      reads this
    {
      Slots(q, times)
    }

    /** The pool set-up of event_init: all slots are free, in order. */
    constructor ()
      ensures Valid() && q.pending == [] && |q.free| == 100
    {
      next := seq(MAX_EVENT, i requires 0 <= i < MAX_EVENT => if i < MAX_EVENT - 1 then i + 1 else NULL);
      times, works := seq(MAX_EVENT, i => Timespec(0, 0)), seq(MAX_EVENT, i => 0);
      freeevents, firstevent := 0, NULL;
      q := Queue([], seq(MAX_EVENT, i requires 0 <= i < MAX_EVENT => i));
      new;
      forall i: nat | i < MAX_EVENT
        ensures i in q.free
      {
        assert q.free[i] == i;
      }
    }

    /** The walk to the first pending event that is not strictly earlier. */
    method WalkToSpot(time: Timespec) returns (t: int, p1: int, ghost k: nat)
      requires Linked(next, firstevent, Indices(q.pending)) && Filled(times, works, q.pending)
      ensures k == Spot(q.pending, time) && p1 == SlotAt(Indices(q.pending), k)
      ensures t == if k == 0 then NULL else Indices(q.pending)[k - 1]
    {
      ghost var xs := Indices(q.pending);
      t, p1, k := NULL, firstevent, 0;
      assert q.pending[0..] == q.pending;
      while p1 != NULL && After(time, times[p1])
        invariant k <= |xs| && p1 == SlotAt(xs, k) && t == (if k == 0 then NULL else xs[k - 1])
        invariant k + Spot(q.pending[k..], time) == Spot(q.pending, time)
        decreases |xs| - k
      {
        assert Hop(next, xs, k);
        assert q.pending[k..][1..] == q.pending[k + 1..];
        t := p1;
        p1 := next[t];
        k := k + 1;
      }
    }

    /** Slot p is linked in before the first pending event that is not strictly earlier. */
    method LinkIn(p: nat, time: Timespec)
      requires Linked(next, firstevent, Indices(q.pending)) && Filled(times, works, q.pending) && p < |next|
      modifies `next, `firstevent
      ensures var k, xs := Spot(q.pending, time), Indices(q.pending);
        if k == 0 then next == old(next)[p := SlotAt(xs, 0)] && firstevent == p
        else
          && xs[k - 1] < |old(next)| && firstevent == old(firstevent)
          && next == old(next)[xs[k - 1] := p][p := SlotAt(xs, k)]
    {
      var t, p1;
      ghost var k;
      t, p1, k := WalkToSpot(time);
      if t != NULL {
        assert Hop(next, Indices(q.pending), k - 1);
        next := next[t := p];
      } else {
        firstevent := p;
      }
      next := next[p := p1];
    }

    /** periodic_event_post: the index of the slot used, or -1 if none is free. */
    method Post(time: Timespec, work: nat) returns (index: int)
      requires Valid()
      modifies this
      ensures Valid() && q == Posted(old(q), time, work)
      ensures index == -1 <==> |old(q).pending| == 100
      ensures if index == -1 then q == old(q) && times == old(times)
              else 0 <= index < |old(times)| && old(q).free == [index] + q.free && times == old(times)[index := time]
      ensures index == -1 || (0 <= index && PlacedInTime(old(q).pending, q.pending, Event(index, time, work)))
    {
      PostedInTime(q, MAX_EVENT, time, work);
      if freeevents == NULL {
        return -1;
      }
      index := UseSlot(time, work);
    }

    /** The first free slot is filled and linked in. */
    method UseSlot(time: Timespec, work: nat) returns (p: nat)
      requires Valid() && freeevents != NULL
      modifies this
      ensures Valid() && old(q).free != [] && q == Posted(old(q), time, work) && p == old(q).free[0] < MAX_EVENT
      ensures times == old(times)[p := time]
    {
      ListsApart(q, MAX_EVENT);
      assert Hop(next, q.free, 0);
      p := freeevents;
      freeevents := next[p];
      times, works := times[p := time], works[p := work];
      LinkIn(p, time);
      PoolPosted(old(next), next, old(firstevent), firstevent, old(freeevents), freeevents,
                 old(times), old(works), q, MAX_EVENT, time, work);
      q := Posted(q, time, work);
    }

    /** The walk to pending event i, or past the end. */
    method WalkToEvent(i: nat) returns (t: int, p1: int, ghost k: nat)
      requires Linked(next, firstevent, Indices(q.pending))
      ensures k == Find(q.pending, i) && p1 == SlotAt(Indices(q.pending), k)
      ensures t == if k == 0 then NULL else Indices(q.pending)[k - 1]
    {
      ghost var xs := Indices(q.pending);
      t, p1, k := NULL, firstevent, 0;
      assert q.pending[0..] == q.pending;
      while p1 != NULL && i != p1
        invariant k <= |xs| && p1 == SlotAt(xs, k) && t == (if k == 0 then NULL else xs[k - 1])
        invariant k + Find(q.pending[k..], i) == Find(q.pending, i)
        decreases |xs| - k
      {
        assert Hop(next, xs, k);
        assert q.pending[k..][1..] == q.pending[k + 1..];
        t := p1;
        p1 := next[t];
        k := k + 1;
      }
    }

    /** periodic_event_delete: 1, or -1 if event i is not pending. */
    method Delete(i: nat) returns (res: int)
      requires Valid()
      modifies this
      ensures Valid() && q == Deleted(old(q), i) && times == old(times)
      ensures res == if Find(old(q).pending, i) < |old(q).pending| then 1 else -1
      ensures res == -1 || (res == 1 && TakenOut(old(q), q, i))
      ensures res == 1 || (q == old(q) && !Pending(q, i))
    {
      DeletedIsTakenOut(q, i);
      var t, p1;
      ghost var k;
      t, p1, k := WalkToEvent(i);
      if p1 == NULL {
        return -1;
      }
      ghost var xs := Indices(q.pending);
      assert k < |xs|;
      if t == NULL {
        firstevent := next[p1];
      } else {
        assert Hop(next, xs, k - 1);
        next := next[t := next[p1]];
      }
      ghost var next1 := next;
      next := next[p1 := freeevents];
      freeevents := p1;
      PoolDeleted(old(next), next1, next, old(firstevent), firstevent, old(freeevents), times, works, q, MAX_EVENT, i);
      q := Deleted(q, i);
      res := 1;
    }

    /** One event is taken off the list, its slot freed, as periodic_wake_up does before it calls the handler;
        pp is the event behind it. */
    method TakeFirst() returns (pp: int, work: nat)
      requires Valid() && firstevent != NULL
      modifies this
      ensures Valid() && old(q).pending != [] && q == Popped(old(q)) && pp == Saved(old(State()))
      ensures pp == firstevent && work == old(q).pending[0].work && times == old(times)
      ensures old(q).pending == [old(q).pending[0]] + q.pending && q.free == [old(q).pending[0].index] + old(q).free
    {
      PoppedOk(q, MAX_EVENT);
      var p := firstevent;
      assert Hop(next, Indices(q.pending), 0);
      work := works[p];
      pp := next[p];
      next := next[p := freeevents];
      freeevents := p;
      firstevent := pp;
      PoolDeleted(old(next), old(next), next, old(firstevent), firstevent, old(freeevents), times, works, q, MAX_EVENT,
                  q.pending[0].index);
      q := Popped(q);
    }

    /** What a handler does. */
    method Perform(ops: seq<Op>)
      requires Valid()
      modifies this
      ensures Valid() && State() == AllDoneIn(old(State()), ops)
    {
      var i := 0;
      assert ops[0..] == ops;
      while i < |ops|
        invariant 0 <= i <= |ops| && Valid() && AllDoneIn(State(), ops[i..]) == AllDoneIn(old(State()), ops)
      {
        assert ops[i..][1..] == ops[i + 1..];
        PerformOne(ops[i]);
        i := i + 1;
      }
    }

    method PerformOne(op: Op)
      requires Valid()
      modifies this
      ensures Valid() && State() == DoneIn(old(State()), op)
    {
      match op {
        case Post(t, w) =>
          var index := Post(t, w);
        case Delete(x) =>
          var res := Delete(x);
      }
    }

    /** The loop of periodic_wake_up: it goes on from the event pp that was behind the one fired. The condition is
        the exact one for the pool to stay whole, in a run of at most m steps. */
    method WakeUp(now: Timespec, script: nat -> seq<Op>, ghost m: nat) returns (fired: seq<nat>)
      requires Valid() && Ends(State(), firstevent, now, script, 0, m)
      modifies this
      ensures Valid()
      ensures var o := Run(old(State()), old(firstevent), now, script, 0, m); State() == o.last && fired == Works(o.fired)
      ensures !SparingScript(script, old(q).pending, now) || WokenInTime(old(q).pending, fired, q.pending, now)
    {
      ghost var steps, o := m, Run(State(), firstevent, now, script, 0, m);
      ghost var goal, all := o.last, Works(o.fired);
      fired := [];
      var p := firstevent;
      PoolOk();
      GoingStart(State(), MAX_EVENT, now, script, m);
      if SparingScript(script, q.pending, now) {
        PoliteInTime(State(), MAX_EVENT, now, script, m);
      }
      while p != NULL
        invariant Valid() && Going(State(), p, now, script, steps, fired, goal, all)
        decreases steps
      {
        if After(times[p], now) {
          break;
        }
        p, fired := FireFirst(p, now, script, steps, fired, goal, all);
        steps := steps - 1;
      }
    }

    lemma PoolOk()
      requires Valid()
      ensures SlotsOk(State(), MAX_EVENT) && firstevent == First(State()) && NULL <= firstevent < MAX_EVENT
    {}

    /** The first event is fired. */
    method FireFirst(p: int, now: Timespec, script: nat -> seq<Op>, ghost m: nat, fired: seq<nat>, ghost goal: Slots, ghost all: seq<nat>)
        returns (pp: int, fired': seq<nat>)
      requires Valid() && Going(State(), p, now, script, m, fired, goal, all) && !Stops(State(), p, now)
      modifies this
      ensures 0 < m && Valid() && Going(State(), pp, now, script, m - 1, fired', goal, all)
    {
      PoolOk();
      GoingStep(State(), p, MAX_EVENT, now, script, m, fired, goal, all);
      var work;
      pp, work := TakeFirst();
      Perform(script(|fired|));
      fired' := fired + [work];
    }
  }
}

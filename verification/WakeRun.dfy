/** The loop of a wake-up, with handlers that do as they please. */
module WakeRun {
  import opened EventQueue
  import opened EventLinks

  /** The queue, and the time in every slot of the pool, free ones too. */
  datatype Slots = Slots(q: Queue, times: seq<Timespec>)

  ghost predicate SlotsOk(s: Slots, n: nat) {
    QueueOk(s.q, n) && |s.times| == n && forall e :: e in s.q.pending ==> e.index < n && s.times[e.index] == e.time
  }

  function DoneIn(s: Slots, op: Op): Slots {
    if op.Post? && s.q.free != [] && s.q.free[0] < |s.times|
    then Slots(Done(s.q, op), s.times[s.q.free[0] := op.time])
    else Slots(Done(s.q, op), s.times)
  }

  /** What a handler does to the pool. */
  function AllDoneIn(s: Slots, ops: seq<Op>): Slots
    decreases |ops|
  {
    if ops == [] then s else AllDoneIn(DoneIn(s, ops[0]), ops[1..])
  }

  lemma {:induction false} SameQueue(s: Slots, ops: seq<Op>)
    ensures AllDoneIn(s, ops).q == AllDone(s.q, ops)
    decreases |ops|
  {
    if ops != [] {
      SameQueue(DoneIn(s, ops[0]), ops[1..]);
    }
  }

  function First(s: Slots): int {
    SlotAt(Indices(s.q.pending), 0)
  }

  /** The event behind the first, which the loop saves before it calls the handler. */
  function Saved(s: Slots): int {
    SlotAt(Indices(s.q.pending), 1)
  }

  /** The pool after the first event has been taken off and its handler has run. */
  function Fired(s: Slots, ops: seq<Op>): Slots
    requires s.q.pending != []
  {
    AllDoneIn(Slots(Popped(s.q), s.times), ops)
  }

  lemma FiredQueue(s: Slots, ops: seq<Op>)
    requires s.q.pending != []
    ensures Fired(s, ops).q == AllDone(Popped(s.q), ops)
  {
    SameQueue(Slots(Popped(s.q), s.times), ops);
  }

  /** The loop ends at slot p. */
  predicate Stops(s: Slots, p: int, now: Timespec) {
    !(0 <= p < |s.times|) || After(s.times[p], now)
  }

  /** For m more steps, the loop at slot p only ever steps on the first pending event. */
  ghost predicate Safe(s: Slots, p: int, now: Timespec, script: nat -> seq<Op>, k: nat, m: nat)
    decreases m
  {
    m == 0 || Stops(s, p, now) ||
    (s.q.pending != [] && p == First(s) && Safe(Fired(s, script(k)), Saved(s), now, script, k + 1, m - 1))
  }

  /** The loop ends after at most m steps, each of them on the first pending event. */
  ghost predicate Ends(s: Slots, p: int, now: Timespec, script: nat -> seq<Op>, k: nat, m: nat)
    decreases m
  {
    Stops(s, p, now) ||
    (m != 0 && s.q.pending != [] && p == First(s) && Ends(Fired(s, script(k)), Saved(s), now, script, k + 1, m - 1))
  }

  lemma {:induction false} EndsIsSafe(s: Slots, p: int, now: Timespec, script: nat -> seq<Op>, k: nat, m: nat, m': nat)
    requires Ends(s, p, now, script, k, m)
    ensures Safe(s, p, now, script, k, m')
    decreases m
  {
    if m' != 0 && !Stops(s, p, now) {
      EndsIsSafe(Fired(s, script(k)), Saved(s), now, script, k + 1, m - 1, m' - 1);
    }
  }

  lemma DoneInOk(s: Slots, n: nat, op: Op)
    requires SlotsOk(s, n)
    ensures SlotsOk(DoneIn(s, op), n)
  {
    match op {
      case Post(t, w) =>
        PostedOk(s.q, n, t, w);
        PostedMembers(s, n, t, w);
      case Delete(i) =>
        DeletedOk(s.q, n, i);
        DeletedMembers(s.q, i);
    }
  }

  lemma PostedMembers(s: Slots, n: nat, t: Timespec, w: nat)
    requires SlotsOk(s, n) && QueueOk(Posted(s.q, t, w), n)
    ensures SlotsOk(DoneIn(s, Post(t, w)), n)
  {
    if s.q.free != [] {
      assert !Pending(s.q, s.q.free[0]);
      var k := Spot(s.q.pending, t);
      forall e | e in Posted(s.q, t, w).pending
        ensures e.index < n && DoneIn(s, Post(t, w)).times[e.index] == e.time
      {
        assert e in s.q.pending || e == Event(s.q.free[0], t, w);
      }
    }
  }

  lemma DeletedMembers(q: Queue, i: nat)
    ensures forall e :: e in Deleted(q, i).pending ==> e in q.pending
  {}

  lemma {:induction false} AllDoneInOk(s: Slots, n: nat, ops: seq<Op>)
    requires SlotsOk(s, n)
    ensures SlotsOk(AllDoneIn(s, ops), n)
    decreases |ops|
  {
    if ops != [] {
      DoneInOk(s, n, ops[0]);
      AllDoneInOk(DoneIn(s, ops[0]), n, ops[1..]);
    }
  }

  lemma FiredOk(s: Slots, n: nat, ops: seq<Op>)
    requires SlotsOk(s, n) && s.q.pending != []
    ensures SlotsOk(Slots(Popped(s.q), s.times), n) && SlotsOk(Fired(s, ops), n)
  {
    PoppedOk(s.q, n);
    AllDoneInOk(Slots(Popped(s.q), s.times), n, ops);
  }

  /** The pool in memory. */
  datatype Memory = Memory(next: seq<int>, times: seq<Timespec>, works: seq<nat>, first: int, free: int)

  ghost predicate Shows(m: Memory, s: Slots, n: nat) {
    && SlotsOk(s, n) && m.times == s.times && |m.next| == |m.times| == |m.works| == n
    && Describes(m.next, m.first, m.free, s.q) && Filled(m.times, m.works, s.q.pending)
  }

  /** The two lists still partition the pool. */
  ghost predicate Whole(m: Memory, n: nat) {
    exists xs: seq<nat>, ys: seq<nat> :: Partitions(m.next, m.first, m.free, n, xs, ys)
  }

  /** The loop's step on slot p, up to the call of the handler. */
  function StepOn(m: Memory, p: nat): Memory
    requires p < |m.next|
  {
    m.(next := Stepped(m.next, p, m.free), first := m.next[p], free := p)
  }

  /** What a handler is known to do: its posts and deletions, on a pool that is in order. */
  ghost predicate Handles(m: Memory, m': Memory, ops: seq<Op>, n: nat) {
    forall s :: Shows(m, s, n) ==> Shows(m', AllDoneIn(s, ops), n)
  }

  ghost predicate StopsAt(m: Memory, p: int, now: Timespec) {
    !(0 <= p < |m.times|) || After(m.times[p], now)
  }

  /** One round of the loop: from slot p in memory m to the saved slot p' in memory m'. */
  ghost predicate Round(m: Memory, p: int, m': Memory, p': int, now: Timespec, ops: seq<Op>, n: nat) {
    !StopsAt(m, p, now) && 0 <= p < |m.next| && p' == m.next[p] && Handles(StepOn(m, p), m', ops, n)
  }

  /** The memories and the slots of a run, at the beginning of each round. */
  ghost predicate Trace(ms: seq<Memory>, ps: seq<int>, n: nat, now: Timespec, script: nat -> seq<Op>, k: nat) {
    && 0 < |ms| == |ps|
    && forall i: nat :: i + 1 < |ms| ==> Round(ms[i], ps[i], ms[i + 1], ps[i + 1], now, script(k + i), n)
  }

  /** The step that the loop takes in memory m, if it takes one, leaves the pool whole. */
  ghost predicate StepKeeps(m: Memory, p: int, now: Timespec, n: nat) {
    !StopsAt(m, p, now) ==> 0 <= p < |m.next| && Whole(StepOn(m, p), n)
  }

  /** Every step of the run leaves the pool whole. */
  ghost predicate AllKeep(ms: seq<Memory>, ps: seq<int>, now: Timespec, n: nat)
    requires |ms| == |ps|
  {
    forall i: nat :: i < |ms| ==> StepKeeps(ms[i], ps[i], now, n)
  }

  lemma FirstKeeps(ms: seq<Memory>, ps: seq<int>, now: Timespec, n: nat)
    requires 0 < |ms| == |ps|
    ensures AllKeep(ms, ps, now, n) <==> StepKeeps(ms[0], ps[0], now, n) && AllKeep(ms[1..], ps[1..], now, n)
  {
    if AllKeep(ms[1..], ps[1..], now, n) && StepKeeps(ms[0], ps[0], now, n) {
      forall i: nat | i < |ms|
        ensures StepKeeps(ms[i], ps[i], now, n)
      {
        if i != 0 {
          assert StepKeeps(ms[1..][i - 1], ps[1..][i - 1], now, n);
        }
      }
    }
  }

  lemma ShownParts(m: Memory, s: Slots, n: nat)
    requires Shows(m, s, n)
    ensures Partitions(m.next, m.first, m.free, n, Indices(s.q.pending), s.q.free)
    ensures m.first == First(s)
  {
    forall i: nat | i < n
      ensures (i in Indices(s.q.pending)) != (i in s.q.free)
    {
      assert Pending(s.q, i) <==> i !in s.q.free;
      if Pending(s.q, i) {
        var k :| 0 <= k < |s.q.pending| && s.q.pending[k].index == i;
        assert Indices(s.q.pending)[k] == i;
      }
    }
  }

  /** One step, on any slot: the pool stays whole exactly when the slot is the first pending event. */
  lemma StepWhole(m: Memory, s: Slots, n: nat, p: nat)
    requires Shows(m, s, n) && p < n
    ensures Whole(StepOn(m, p), n) <==> p == First(s)
  {
    ShownParts(m, s, n);
    StepExact(m.next, m.first, m.free, n, Indices(s.q.pending), s.q.free, p);
  }

  /** A step on the first pending event takes it off. */
  lemma StepShows(m: Memory, s: Slots, n: nat)
    requires Shows(m, s, n) && s.q.pending != []
    ensures var p := s.q.pending[0].index;
      p < n && Shows(StepOn(m, p), Slots(Popped(s.q), s.times), n) && m.next[p] == Saved(s) && m.first == p
  {
    var xs := Indices(s.q.pending);
    FiredOk(s, n, []);
    ShownParts(m, s, n);
    assert Hop(m.next, xs, 0);
    StepOnFirst(m.next, m.first, m.free, n, xs, s.q.free, xs[0]);
    assert Indices(Popped(s.q).pending) == xs[1..];
  }

  /** Every step of a run keeps the pool whole if and only if every slot it steps on is the first pending event:
      the condition that the saved slot is null, not due, or still the first after each handler. */
  lemma {:induction false} RunExact(ms: seq<Memory>, ps: seq<int>, s: Slots, n: nat, now: Timespec, script: nat -> seq<Op>, k: nat)
    requires Trace(ms, ps, n, now, script, k) && Shows(ms[0], s, n)
    ensures AllKeep(ms, ps, now, n) <==> Safe(s, ps[0], now, script, k, |ms|)
    decreases |ms|
  {
    FirstKeeps(ms, ps, now, n);
    if 1 < |ms| {
      assert Round(ms[0], ps[0], ms[1], ps[1], now, script(k + 0), n);
    }
    if !StopsAt(ms[0], ps[0], now) {
      StepWhole(ms[0], s, n, ps[0]);
      if ps[0] == First(s) {
        StepShows(ms[0], s, n);
        if 1 < |ms| {
          LaterRounds(ms, ps, s, n, now, script, k);
          RunExact(ms[1..], ps[1..], Fired(s, script(k)), n, now, script, k + 1);
        }
      }
    }
  }

  lemma LaterRounds(ms: seq<Memory>, ps: seq<int>, s: Slots, n: nat, now: Timespec, script: nat -> seq<Op>, k: nat)
    requires Trace(ms, ps, n, now, script, k) && 1 < |ms|
    requires Shows(ms[0], s, n) && s.q.pending != [] && ps[0] == First(s)
    ensures Trace(ms[1..], ps[1..], n, now, script, k + 1)
    ensures Shows(ms[1], Fired(s, script(k)), n) && ps[1] == Saved(s)
  {
    assert Round(ms[0], ps[0], ms[1], ps[1], now, script(k + 0), n);
    StepShows(ms[0], s, n);
    forall i: nat | i + 1 < |ms| - 1
      ensures Round(ms[1..][i], ps[1..][i], ms[1..][i + 1], ps[1..][i + 1], now, script(k + 1 + i), n)
    {
      assert Round(ms[i + 1], ps[i + 1], ms[i + 1 + 1], ps[i + 1 + 1], now, script(k + (i + 1)), n);
    }
  }

  /** The event that an operation posts or deletes. */
  function OnePosted(q: Queue, op: Op): multiset<Event> {
    if op.Post? && q.free != [] then multiset{Event(q.free[0], op.time, op.work)} else multiset{}
  }

  function OneDeleted(q: Queue, op: Op): multiset<Event> {
    if op.Delete? && Find(q.pending, op.index) < |q.pending| then multiset{q.pending[Find(q.pending, op.index)]}
    else multiset{}
  }

  function PostedBy(q: Queue, ops: seq<Op>): multiset<Event>
    decreases |ops|
  {
    if ops == [] then multiset{} else OnePosted(q, ops[0]) + PostedBy(Done(q, ops[0]), ops[1..])
  }

  function DeletedBy(q: Queue, ops: seq<Op>): multiset<Event>
    decreases |ops|
  {
    if ops == [] then multiset{} else OneDeleted(q, ops[0]) + DeletedBy(Done(q, ops[0]), ops[1..])
  }

  /** What m steps of a safe run do: the events fired, in order, those that the handlers posted and deleted,
      and the pool in the end. */
  datatype Outcome = Outcome(fired: seq<Event>, posted: multiset<Event>, deleted: multiset<Event>, last: Slots)

  /** The first event is fired and its handler does `ops`, before what o says. */
  function Then(s: Slots, ops: seq<Op>, o: Outcome): Outcome
    requires s.q.pending != []
  {
    Outcome([s.q.pending[0]] + o.fired, PostedBy(Popped(s.q), ops) + o.posted, DeletedBy(Popped(s.q), ops) + o.deleted, o.last)
  }

  function Run(s: Slots, p: int, now: Timespec, script: nat -> seq<Op>, k: nat, m: nat): Outcome
    decreases m
  {
    if m == 0 || Stops(s, p, now) || s.q.pending == [] then Outcome([], multiset{}, multiset{}, s)
    else Then(s, script(k), Run(Fired(s, script(k)), Saved(s), now, script, k + 1, m - 1))
  }

  lemma OneOpConserves(q: Queue, op: Op)
    ensures multiset(q.pending) + OnePosted(q, op) == multiset(Done(q, op).pending) + OneDeleted(q, op)
  {
    match op {
      case Post(t, w) => PostConserves(q, t, w);
      case Delete(i) => DeleteConserves(q, i);
    }
  }

  lemma PostConserves(q: Queue, t: Timespec, w: nat)
    ensures multiset(q.pending) + OnePosted(q, Post(t, w)) == multiset(Posted(q, t, w).pending)
  {
    if q.free != [] {
      PutInConserves(q.pending, Spot(q.pending, t), Event(q.free[0], t, w));
    }
  }

  lemma DeleteConserves(q: Queue, i: nat)
    ensures multiset(q.pending) == multiset(Deleted(q, i).pending) + OneDeleted(q, Delete(i))
  {
    if Find(q.pending, i) < |q.pending| {
      TakenOutConserves(q.pending, Find(q.pending, i));
    }
  }

  lemma PutInConserves(es: seq<Event>, k: nat, e: Event)
    requires k <= |es|
    ensures multiset(es) + multiset{e} == multiset(es[..k] + [e] + es[k..])
  {
    assert es == es[..k] + es[k..];
  }

  lemma TakenOutConserves(es: seq<Event>, k: nat)
    requires k < |es|
    ensures multiset(es) == multiset(es[..k] + es[k + 1..]) + multiset{es[k]}
  {
    assert es == es[..k] + [es[k]] + es[k + 1..];
  }

  /** What goes in and what comes out, in two steps. */
  lemma Balance(a: multiset<Event>, in1: multiset<Event>, b: multiset<Event>, out1: multiset<Event>, fired: multiset<Event>,
                in2: multiset<Event>, out2: multiset<Event>, c: multiset<Event>)
    requires a + in1 == b + out1 && b + in2 == fired + out2 + c
    ensures a + (in1 + in2) == fired + (out1 + out2) + c
  {
    assert a + (in1 + in2) == a + in1 + in2 == b + out1 + in2 == b + in2 + out1;
  }

  lemma {:induction false} HandlerConserves(q: Queue, ops: seq<Op>)
    ensures multiset(q.pending) + PostedBy(q, ops) == multiset(AllDone(q, ops).pending) + DeletedBy(q, ops)
    decreases |ops|
  {
    if ops != [] {
      OneOpConserves(q, ops[0]);
      HandlerConserves(Done(q, ops[0]), ops[1..]);
      Balance(multiset(q.pending), OnePosted(q, ops[0]), multiset(Done(q, ops[0]).pending), OneDeleted(q, ops[0]), multiset{},
              PostedBy(Done(q, ops[0]), ops[1..]), DeletedBy(Done(q, ops[0]), ops[1..]), multiset(AllDone(q, ops).pending));
    }
  }

  lemma WithFirst(es: seq<Event>, fs: seq<Event>)
    requires es != []
    ensures multiset(es) == multiset{es[0]} + multiset(es[1..]) && multiset([es[0]] + fs) == multiset{es[0]} + multiset(fs)
  {
    assert es == [es[0]] + es[1..];
  }

  /** What was pending and what the handlers posted is what has been fired, what they deleted and what is pending
      in the end. */
  ghost predicate Conserves(es: seq<Event>, o: Outcome) {
    multiset(es) + o.posted == multiset(o.fired) + o.deleted + multiset(o.last.q.pending)
  }

  lemma ThenConserves(s: Slots, ops: seq<Op>, o: Outcome)
    requires s.q.pending != [] && Conserves(Fired(s, ops).q.pending, o)
    ensures Conserves(s.q.pending, Then(s, ops, o))
  {
    var q := Popped(s.q);
    FiredQueue(s, ops);
    HandlerConserves(q, ops);
    Balance(multiset(q.pending), PostedBy(q, ops), multiset(AllDone(q, ops).pending), DeletedBy(q, ops),
            multiset(o.fired), o.posted, o.deleted, multiset(o.last.q.pending));
    WithFirst(s.q.pending, o.fired);
    AddOne(multiset{s.q.pending[0]}, multiset(q.pending), PostedBy(q, ops) + o.posted, multiset(o.fired),
           DeletedBy(q, ops) + o.deleted, multiset(o.last.q.pending));
  }

  lemma AddOne(x: multiset<Event>, a: multiset<Event>, b: multiset<Event>, c: multiset<Event>, d: multiset<Event>, e: multiset<Event>)
    requires a + b == c + d + e
    ensures (x + a) + b == (x + c) + d + e
  {
    assert (x + a) + b == x + (a + b);
  }

  /** No event is lost and none is fired twice. */
  lemma {:induction false} RunConserves(s: Slots, p: int, now: Timespec, script: nat -> seq<Op>, k: nat, m: nat)
    ensures Conserves(s.q.pending, Run(s, p, now, script, k, m))
    decreases m
  {
    if !(m == 0 || Stops(s, p, now) || s.q.pending == []) {
      RunConserves(Fired(s, script(k)), Saved(s), now, script, k + 1, m - 1);
      ThenConserves(s, script(k), Run(Fired(s, script(k)), Saved(s), now, script, k + 1, m - 1));
    }
  }

  ghost predicate AllDue(es: seq<Event>, now: Timespec) {
    forall e :: e in es ==> Due(e, now)
  }

  lemma FirstIsDue(s: Slots, p: int, now: Timespec, n: nat)
    requires SlotsOk(s, n) && s.q.pending != [] && p == First(s) && !Stops(s, p, now)
    ensures Due(s.q.pending[0], now)
  {
    assert s.q.pending[0] in s.q.pending;
  }

  /** What was fired is due, and the pool is in order in the end. */
  ghost predicate DueAndOk(o: Outcome, now: Timespec, n: nat) {
    AllDue(o.fired, now) && SlotsOk(o.last, n)
  }

  lemma SafeStep(s: Slots, p: int, now: Timespec, script: nat -> seq<Op>, k: nat, m: nat, n: nat)
    requires SlotsOk(s, n) && Safe(s, p, now, script, k, m) && m != 0 && !Stops(s, p, now)
    ensures s.q.pending != [] && Due(s.q.pending[0], now)
    ensures SlotsOk(Fired(s, script(k)), n) && Safe(Fired(s, script(k)), Saved(s), now, script, k + 1, m - 1)
  {
    FiredOk(s, n, script(k));
    FirstIsDue(s, p, now, n);
  }

  lemma ThenDue(s: Slots, now: Timespec, ops: seq<Op>, o: Outcome, n: nat)
    requires s.q.pending != [] && Due(s.q.pending[0], now) && DueAndOk(o, now, n)
    ensures DueAndOk(Then(s, ops, o), now, n)
  {}

  /** Every event that a safe run fires is due. */
  lemma {:induction false} FiredAreDue(s: Slots, p: int, now: Timespec, script: nat -> seq<Op>, k: nat, m: nat, n: nat)
    requires SlotsOk(s, n) && Safe(s, p, now, script, k, m)
    ensures DueAndOk(Run(s, p, now, script, k, m), now, n)
    decreases m
  {
    if !(m == 0 || Stops(s, p, now)) {
      SafeStep(s, p, now, script, k, m, n);
      var s' := Fired(s, script(k));
      FiredAreDue(s', Saved(s), now, script, k + 1, m - 1, n);
      ThenDue(s, now, script(k), Run(s', Saved(s), now, script, k + 1, m - 1), n);
    }
  }

  lemma OneStays(q: Queue, op: Op, e: Event)
    requires e in q.pending && op != Delete(e.index)
    ensures e in Done(q, op).pending
  {
    match op {
      case Post(t, w) =>
        var k := Spot(q.pending, t);
        assert q.pending == q.pending[..k] + q.pending[k..];
      case Delete(i) =>
        var k := Find(q.pending, i);
        if k < |q.pending| {
          assert q.pending == q.pending[..k] + [q.pending[k]] + q.pending[k + 1..];
        }
    }
  }

  /** An event that is not deleted stays pending. */
  lemma {:induction false} StaysPending(q: Queue, ops: seq<Op>, e: Event)
    requires e in q.pending && forall i :: 0 <= i < |ops| ==> ops[i] != Delete(e.index)
    ensures e in AllDone(q, ops).pending
    decreases |ops|
  {
    if ops != [] {
      OneStays(q, ops[0], e);
      StaysPending(Done(q, ops[0]), ops[1..], e);
    }
  }

  /** One round: the pool at its beginning, and what the handler does. */
  datatype Turn = Turn(s: Slots, ops: seq<Op>)

  /** The handler does not delete the saved event. */
  ghost predicate Spared(t: Turn) {
    1 < |t.s.q.pending| ==> forall i :: 0 <= i < |t.ops| ==> t.ops[i] != Delete(t.s.q.pending[1].index)
  }

  /** None of the handlers does. */
  ghost predicate SparesNext(s: Slots, p: int, now: Timespec, script: nat -> seq<Op>, k: nat, m: nat)
    decreases m
  {
    m == 0 || Stops(s, p, now) || s.q.pending == [] ||
    (Spared(Turn(s, script(k))) && SparesNext(Fired(s, script(k)), Saved(s), now, script, k + 1, m - 1))
  }

  /** The last round of a run that has ended. */
  function LastTurn(s: Slots, p: int, now: Timespec, script: nat -> seq<Op>, k: nat, m: nat): Turn
    decreases m
  {
    if m == 0 || Stops(s, p, now) || s.q.pending == [] || Stops(Fired(s, script(k)), Saved(s), now) then Turn(s, script(k))
    else LastTurn(Fired(s, script(k)), Saved(s), now, script, k + 1, m - 1)
  }

  /** The loop ends with this round. */
  ghost predicate IsLast(t: Turn, now: Timespec, n: nat) {
    SlotsOk(t.s, n) && t.s.q.pending != [] && Stops(Fired(t.s, t.ops), Saved(t.s), now)
  }

  lemma {:induction false} LastTurnIsLast(s: Slots, p: int, now: Timespec, script: nat -> seq<Op>, k: nat, m: nat, n: nat)
    requires SlotsOk(s, n) && Ends(s, p, now, script, k, m) && !Stops(s, p, now)
    ensures var t := LastTurn(s, p, now, script, k, m); IsLast(t, now, n) && Run(s, p, now, script, k, m).last == Fired(t.s, t.ops)
    decreases m
  {
    if !Stops(Fired(s, script(k)), Saved(s), now) {
      FiredOk(s, n, script(k));
      LastTurnIsLast(Fired(s, script(k)), Saved(s), now, script, k + 1, m - 1, n);
    }
  }

  lemma FromHandler(q: Queue, ops: seq<Op>, e: Event)
    requires e in AllDone(q, ops).pending
    ensures e in q.pending || e in PostedBy(q, ops)
  {
    HandlerConserves(q, ops);
    assert e in multiset(AllDone(q, ops).pending);
    assert e in multiset(q.pending) + PostedBy(q, ops);
  }

  lemma RestIsLater(es: seq<Event>, now: Timespec, e: Event)
    requires es != [] && Sorted(es) && !Due(es[0], now) && e in es
    ensures !Due(e, now)
  {
    var i :| 0 <= i < |es| && es[i] == e;
    assert i == 0 || !After(es[0].time, es[i].time);
  }

  /** The handler has posted e, and not deleted it since. */
  ghost predicate PostedThere(t: Turn, e: Event)
    requires t.s.q.pending != []
  {
    e in PostedBy(Popped(t.s.q), t.ops) && e in Fired(t.s, t.ops).q.pending
  }

  /** The saved event was due and has been deleted, and e is one of those behind it that have not. */
  ghost predicate CutOff(t: Turn, now: Timespec, e: Event)
    requires t.s.q.pending != []
  {
    var q, q' := Popped(t.s.q), Fired(t.s, t.ops).q;
    q.pending != [] && Due(q.pending[0], now) && q.pending[0] !in q'.pending && e in q.pending && e in q'.pending
  }

  lemma SavedIsGone(t: Turn, now: Timespec, n: nat)
    requires IsLast(t, now, n) && 1 < |t.s.q.pending| && Due(t.s.q.pending[1], now)
    ensures t.s.q.pending[1] !in Fired(t.s, t.ops).q.pending
  {
    FiredOk(t.s, n, t.ops);
  }

  lemma LeftByTurn(t: Turn, now: Timespec, n: nat, e: Event)
    requires IsLast(t, now, n) && Due(e, now)
    ensures e in Fired(t.s, t.ops).q.pending <==> PostedThere(t, e) || CutOff(t, now, e)
  {
    var q := Popped(t.s.q);
    FiredQueue(t.s, t.ops);
    if e in AllDone(q, t.ops).pending && e !in PostedBy(q, t.ops) {
      FromHandler(q, t.ops, e);
      FiredOk(t.s, n, t.ops);
      if !Due(q.pending[0], now) {
        RestIsLater(q.pending, now, e);
      }
      SavedIsGone(t, now, n);
    }
  }

  /** Which due events a run leaves that has ended: exactly those that the last handler has posted, and, if it has
      deleted the saved event and that was due, those behind it. */
  lemma DueLeftExact(s: Slots, p: int, now: Timespec, script: nat -> seq<Op>, k: nat, m: nat, n: nat, e: Event)
    requires SlotsOk(s, n) && Ends(s, p, now, script, k, m) && !Stops(s, p, now) && Due(e, now)
    ensures var t := LastTurn(s, p, now, script, k, m);
      && t.s.q.pending != []
      && (e in Run(s, p, now, script, k, m).last.q.pending <==> PostedThere(t, e) || CutOff(t, now, e))
  {
    LastTurnIsLast(s, p, now, script, k, m, n);
    LeftByTurn(LastTurn(s, p, now, script, k, m), now, n, e);
  }

  ghost predicate NothingDue(es: seq<Event>, now: Timespec) {
    forall e :: e in es ==> !Due(e, now)
  }

  /** A loop that ends at once at the first event leaves nothing due. */
  lemma EndsAtOnce(s: Slots, now: Timespec, n: nat)
    requires SlotsOk(s, n) && Stops(s, First(s), now)
    ensures NothingDue(s.q.pending, now)
  {
    if s.q.pending != [] {
      assert s.q.pending[0] in s.q.pending;
      forall e | e in s.q.pending
        ensures !Due(e, now)
      {
        RestIsLater(s.q.pending, now, e);
      }
    }
  }

  /** The last handler leaves an event due. */
  ghost predicate LeavesDue(t: Turn, now: Timespec)
    requires t.s.q.pending != []
  {
    exists e :: Due(e, now) && (PostedThere(t, e) || CutOff(t, now, e))
  }

  /** A loop that starts at the first event, and ends, leaves nothing due if and only if it ends at once or its last
      handler leaves nothing due. */
  lemma NothingDueExact(s: Slots, now: Timespec, script: nat -> seq<Op>, k: nat, m: nat, n: nat)
    requires SlotsOk(s, n) && Ends(s, First(s), now, script, k, m)
    ensures Stops(s, First(s), now) ==> NothingDue(Run(s, First(s), now, script, k, m).last.q.pending, now)
    ensures !Stops(s, First(s), now) ==>
      var t := LastTurn(s, First(s), now, script, k, m);
      t.s.q.pending != [] && (NothingDue(Run(s, First(s), now, script, k, m).last.q.pending, now) <==> !LeavesDue(t, now))
  {
    if Stops(s, First(s), now) {
      EndsAtOnce(s, now, n);
    } else {
      LastTurnIsLast(s, First(s), now, script, k, m, n);
      var t := LastTurn(s, First(s), now, script, k, m);
      forall e | Due(e, now)
        ensures e in Fired(t.s, t.ops).q.pending <==> PostedThere(t, e) || CutOff(t, now, e)
      {
        LeftByTurn(t, now, n, e);
      }
    }
  }

  lemma {:induction false} LastSpares(s: Slots, p: int, now: Timespec, script: nat -> seq<Op>, k: nat, m: nat)
    requires Ends(s, p, now, script, k, m) && SparesNext(s, p, now, script, k, m) && !Stops(s, p, now)
    ensures Spared(LastTurn(s, p, now, script, k, m))
    decreases m
  {
    if !Stops(Fired(s, script(k)), Saved(s), now) {
      LastSpares(Fired(s, script(k)), Saved(s), now, script, k + 1, m - 1);
    }
  }

  lemma SparedStays(t: Turn)
    requires t.s.q.pending != [] && Spared(t)
    ensures 1 < |t.s.q.pending| ==> t.s.q.pending[1] in Fired(t.s, t.ops).q.pending
  {
    if 1 < |t.s.q.pending| {
      FiredQueue(t.s, t.ops);
      StaysPending(Popped(t.s.q), t.ops, t.s.q.pending[1]);
    }
  }

  /** Nothing else due is left behind by a safe run that has ended, if no handler deletes the event that the loop
      goes on from. */
  lemma NothingElseDue(s: Slots, p: int, now: Timespec, script: nat -> seq<Op>, k: nat, m: nat, n: nat, e: Event)
    requires SlotsOk(s, n) && Ends(s, p, now, script, k, m) && SparesNext(s, p, now, script, k, m) && !Stops(s, p, now)
    requires e in Run(s, p, now, script, k, m).last.q.pending && Due(e, now)
    ensures var t := LastTurn(s, p, now, script, k, m); t.s.q.pending != [] && PostedThere(t, e)
  {
    var t := LastTurn(s, p, now, script, k, m);
    DueLeftExact(s, p, now, script, k, m, n, e);
    LastSpares(s, p, now, script, k, m);
    SparedStays(t);
  }

  /** An operation that leaves the next event alone: a post to a later time than its own, or another event's deletion. */
  predicate Spares(e: Event, op: Op) {
    match op
    case Post(t, w) => After(t, e.time)
    case Delete(i) => i != e.index
  }

  /** There are no others, where a slot is free. */
  lemma SparesExact(q: Queue, n: nat, op: Op)
    requires QueueOk(q, n) && q.pending != [] && q.free != []
    ensures var es := Done(q, op).pending; es != [] && es[0] == q.pending[0] <==> Spares(q.pending[0], op)
  {
    var e := q.pending[0];
    assert Pending(q, e.index);
    match op {
      case Post(t, w) => HeadStays(q, n, t, w);
      case Delete(i) =>
        if i == e.index {
          assert forall k :: 0 < k < |q.pending| ==> q.pending[k].index != i;
        } else if Find(q.pending, i) < |q.pending| {
          assert Find(q.pending, i) != 0;
        }
    }
  }

  lemma {:induction false} FirstStays(q: Queue, ops: seq<Op>)
    requires q.pending != [] && forall i :: 0 <= i < |ops| ==> Spares(q.pending[0], ops[i])
    ensures var q' := AllDone(q, ops); q'.pending != [] && q'.pending[0] == q.pending[0]
    decreases |ops|
  {
    if ops != [] {
      assert Spares(q.pending[0], ops[0]);
      FirstStays(Done(q, ops[0]), ops[1..]);
    }
  }

  /** Every handler of the run leaves the next event alone, if there is one. */
  ghost predicate Calm(s: Slots, p: int, now: Timespec, script: nat -> seq<Op>, k: nat, m: nat)
    decreases m
  {
    m == 0 || Stops(s, p, now) || s.q.pending == [] ||
    ( && (1 < |s.q.pending| ==> forall i :: 0 <= i < |script(k)| ==> Spares(s.q.pending[1], script(k)[i]))
      && Calm(Fired(s, script(k)), Saved(s), now, script, k + 1, m - 1))
  }

  /** Such handlers are safe, although they may post to times that are due. */
  lemma {:induction false} CalmIsSafe(s: Slots, p: int, now: Timespec, script: nat -> seq<Op>, k: nat, m: nat)
    requires (p == First(s) || Stops(s, p, now)) && Calm(s, p, now, script, k, m)
    ensures Safe(s, p, now, script, k, m)
    decreases m
  {
    if m != 0 && !Stops(s, p, now) {
      if 1 < |s.q.pending| {
        FiredQueue(s, script(k));
        FirstStays(Popped(s.q), script(k));
      }
      CalmIsSafe(Fired(s, script(k)), Saved(s), now, script, k + 1, m - 1);
    }
  }

  lemma OneOp(s: Slots, op: Op)
    ensures AllDoneIn(s, [op]) == DoneIn(s, op)
  {
    assert [op][1..] == [];
  }

  /** Two events at one time. */
  function Twins(t: Timespec): Slots {
    Slots(Queue([Event(0, t, 1), Event(1, t, 2)], [2]), [t, t, t])
  }

  /** After the handler of the first has posted to that time: its event has the slot just freed, and stands before
      the saved one. */
  lemma TwinPosted(t: Timespec)
    ensures SlotsOk(Twins(t), 3) && SlotsOk(Fired(Twins(t), [Post(t, 3)]), 3)
    ensures Fired(Twins(t), [Post(t, 3)]).q == Queue([Event(0, t, 3), Event(1, t, 2)], [2])
    ensures Saved(Twins(t)) == 1
  {
    var s := Twins(t);
    assert Holds(s.q.pending, 0) && Holds(s.q.pending, 1) by {
      assert s.q.pending[0].index == 0 && s.q.pending[1].index == 1;
    }
    FiredOk(s, 3, [Post(t, 3)]);
    OneOp(Slots(Popped(s.q), s.times), Post(t, 3));
    assert Popped(s.q) == Queue([Event(1, t, 2)], [0, 2]);
    assert Spot([Event(1, t, 2)], t) == 0;
  }

  /** The next step then loses the posted event: it is in neither list, although it is pending and due. */
  lemma PostIsLost(t: Timespec, m: Memory, xs: seq<nat>, ys: seq<nat>)
    requires Shows(m, Fired(Twins(t), [Post(t, 3)]), 3)
    requires var m' := StepOn(m, 1); Linked(m'.next, m'.first, xs) && Linked(m'.next, m'.free, ys)
    ensures !Safe(Twins(t), 0, t, _ => [Post(t, 3)], 0, 2) && 0 !in xs && 0 !in ys
  {
    var s := Fired(Twins(t), [Post(t, 3)]);
    TwinPosted(t);
    ShownParts(m, s, 3);
    StepOnLater(m.next, m.first, m.free, 3, Indices(s.q.pending), s.q.free, 1, xs, ys);
    NotSafe(Twins(t), 0, t, _ => [Post(t, 3)], 0, 2);
  }

  /** In memory: the pending list is empty and the free list has the other two slots. */
  lemma LostInMemory(t: Timespec, work: nat)
    ensures var m := Memory([1, NULL, NULL], [t, t, t], [3, 2, work], 0, 2); var m' := StepOn(m, 1);
      && Shows(m, Fired(Twins(t), [Post(t, 3)]), 3)
      && Linked(m'.next, m'.first, []) && Linked(m'.next, m'.free, [1, 2])
  {
    TwinShown(t, work);
    assert Hop([1, 2, NULL], [1, 2], 0) && Hop([1, 2, NULL], [1, 2], 1);
    assert [1, NULL, NULL][1 := 2] == [1, 2, NULL];
  }

  lemma TwinShown(t: Timespec, work: nat)
    ensures Shows(Memory([1, NULL, NULL], [t, t, t], [3, 2, work], 0, 2), Fired(Twins(t), [Post(t, 3)]), 3)
  {
    var next := [1, NULL, NULL];
    TwinPosted(t);
    OneOp(Slots(Popped(Twins(t).q), Twins(t).times), Post(t, 3));
    assert Fired(Twins(t), [Post(t, 3)]).times == [t, t, t];
    assert Indices(Fired(Twins(t), [Post(t, 3)]).q.pending) == [0, 1];
    assert Hop(next, [0, 1], 0) && Hop(next, [0, 1], 1) && Hop(next, [2], 0);
  }

  lemma NotSafe(s: Slots, p: int, now: Timespec, script: nat -> seq<Op>, k: nat, m: nat)
    requires s.q.pending != [] && !Stops(s, p, now) && 1 < m
    requires !Stops(Fired(s, script(k)), Saved(s), now) && Saved(s) != First(Fired(s, script(k)))
    ensures !Safe(s, p, now, script, k, m)
  {}

  function Triplets(t: Timespec): Slots {
    Slots(Queue([Event(0, t, 1), Event(1, t, 2), Event(2, t, 3)], []), [t, t, t])
  }

  /** Three events at one time, and a handler that deletes the next one and posts again to a later time: the loop ends
      there, and the third event, though due, is not fired. */
  lemma EndsEarly(t: Timespec, later: Timespec)
    requires After(later, t)
    ensures var ops := [Delete(1), Post(later, 4)];
      && SlotsOk(Triplets(t), 3) && Ends(Triplets(t), 0, t, _ => ops, 0, 1)
      && Event(2, t, 3) in Run(Triplets(t), 0, t, _ => ops, 0, 1).last.q.pending
  {
    var s, ops := Triplets(t), [Delete(1), Post(later, 4)];
    TripletsCut(t, later);
    assert s.q.pending[0].index == 0 && s.q.pending[1].index == 1 && s.q.pending[2].index == 2;
    assert Event(2, t, 3) in Fired(s, ops).q.pending;
  }

  lemma TripletsCut(t: Timespec, later: Timespec)
    requires After(later, t)
    ensures Fired(Triplets(t), [Delete(1), Post(later, 4)]) == Slots(Queue([Event(2, t, 3), Event(1, later, 4)], [0]), [t, later, t])
  {
    var s1 := Slots(Queue([Event(1, t, 2), Event(2, t, 3)], [0]), [t, t, t]);
    var s2 := Slots(Queue([Event(2, t, 3)], [1, 0]), [t, t, t]);
    assert Slots(Popped(Triplets(t).q), Triplets(t).times) == s1;
    assert DoneIn(s1, Delete(1)) == s2 by {
      assert Find(s1.q.pending, 1) == 0;
    }
    OneOp(s2, Post(later, 4));
    assert [Delete(1), Post(later, 4)][1..] == [Post(later, 4)];
    assert Spot(s2.q.pending, later) == 1;
  }

  /** The loop is at the first pending event if any is due; else it ends, even if its slot has been freed and used
      again meanwhile. */
  ghost predicate At(s: Slots, p: int, now: Timespec) {
    if DuePart(s.q.pending, now) != [] then p == First(s) else Stops(s, p, now)
  }

  lemma {:induction false} LaterStays(s: Slots, ops: seq<Op>, now: Timespec, x: nat)
    requires AllPolite(s.q, ops, now) && x < |s.times| && After(s.times[x], now)
    ensures x < |AllDoneIn(s, ops).times| && After(AllDoneIn(s, ops).times[x], now)
    decreases |ops|
  {
    if ops != [] {
      LaterStays(DoneIn(s, ops[0]), ops[1..], now, x);
    }
  }

  lemma PoliteStep(s: Slots, n: nat, now: Timespec, script: nat -> seq<Op>, k: nat)
    requires SlotsOk(s, n) && PoliteRun(s.q, n, now, script, k) && DuePart(s.q.pending, now) != []
    ensures At(Fired(s, script(k)), Saved(s), now)
  {
    var q, s' := Popped(s.q), Fired(s, script(k));
    RunStep(s.q, n, now, script, k);
    FiredQueue(s, script(k));
    if DuePart(s'.q.pending, now) == [] {
      if q.pending != [] {
        assert q.pending[0] == s.q.pending[1] && s.q.pending[1] in s.q.pending;
        LaterStays(Slots(q, s.times), script(k), now, q.pending[0].index);
      }
    } else {
      assert s'.q.pending[0] == q.pending[0] == s.q.pending[1];
    }
  }

  lemma AtDue(s: Slots, p: int, now: Timespec, n: nat)
    requires SlotsOk(s, n) && At(s, p, now)
    ensures Stops(s, p, now) <==> DuePart(s.q.pending, now) == []
  {
    if DuePart(s.q.pending, now) != [] {
      assert s.q.pending[0] in s.q.pending;
    }
  }

  /** A polite wake-up ends with exactly the due events fired, once each and in order. */
  lemma {:induction false} PoliteEnds(s: Slots, p: int, n: nat, now: Timespec, script: nat -> seq<Op>, k: nat)
    requires SlotsOk(s, n) && PoliteRun(s.q, n, now, script, k) && At(s, p, now)
    ensures var m := |DuePart(s.q.pending, now)|;
      && Ends(s, p, now, script, k, m) && Run(s, p, now, script, k, m).fired == DuePart(s.q.pending, now)
      && Run(s, p, now, script, k, m).last.q == Woken(s.q, n, now, script, k)
    decreases |DuePart(s.q.pending, now)|
  {
    AtDue(s, p, now, n);
    if DuePart(s.q.pending, now) != [] {
      FiredOk(s, n, script(k));
      RunStep(s.q, n, now, script, k);
      FiredQueue(s, script(k));
      PoliteStep(s, n, now, script, k);
      PoliteEnds(Fired(s, script(k)), Saved(s), n, now, script, k + 1);
    }
  }

  lemma FirstIsAt(s: Slots, now: Timespec, n: nat)
    requires SlotsOk(s, n)
    ensures At(s, First(s), now)
  {
    if s.q.pending != [] {
      assert s.q.pending[0] in s.q.pending;
    }
  }

  /** A polite wake-up from the first event on. */
  lemma PoliteFromFirst(s: Slots, n: nat, now: Timespec, script: nat -> seq<Op>)
    requires SlotsOk(s, n) && PoliteRun(s.q, n, now, script, 0)
    ensures var m := |DuePart(s.q.pending, now)|; var o := Run(s, First(s), now, script, 0, m);
      && Ends(s, First(s), now, script, 0, m) && o.fired == DuePart(s.q.pending, now)
      && NothingDue(o.last.q.pending, now) && SlotsOk(o.last, n)
  {
    var m := |DuePart(s.q.pending, now)|;
    FirstIsAt(s, now, n);
    PoliteEnds(s, First(s), n, now, script, 0);
    EndsIsSafe(s, First(s), now, script, 0, m, m);
    FiredAreDue(s, First(s), now, script, 0, m, n);
    WokenOk(s.q, n, now, script, 0);
    NoneDue(Run(s, First(s), now, script, 0, m).last.q.pending, now);
  }

  lemma NoneDue(es: seq<Event>, now: Timespec)
    requires Sorted(es) && DuePart(es, now) == []
    ensures NothingDue(es, now)
  {
    forall e | e in es
      ensures !Due(e, now)
    {
      RestIsLater(es, now, e);
    }
  }

  /** A run that has ended does not depend on how many more steps it may take. */
  lemma {:induction false} RunEnded(s: Slots, p: int, now: Timespec, script: nat -> seq<Op>, k: nat, m: nat, m': nat)
    requires Ends(s, p, now, script, k, m) && Ends(s, p, now, script, k, m')
    ensures Run(s, p, now, script, k, m) == Run(s, p, now, script, k, m')
    decreases m
  {
    if !Stops(s, p, now) {
      RunEnded(Fired(s, script(k)), Saved(s), now, script, k + 1, m - 1, m' - 1);
    }
  }

  /** The works fired are those of the events es whose number is at most that of now, in their order, and none such
      is pending in the end. */
  ghost predicate WokenInTime(es: seq<Event>, fired: seq<nat>, last: seq<Event>, now: Timespec) {
    && |fired| <= |es| && (forall i :: 0 <= i < |fired| ==> fired[i] == es[i].work)
    && (forall i :: 0 <= i < |es| ==> (Nanos(es[i].time) <= Nanos(now) <==> i < |fired|))
    && forall e :: e in last && InSecond(e.time) ==> Nanos(now) < Nanos(e.time)
  }

  lemma {:induction false} WorksAt(es: seq<Event>)
    ensures |Works(es)| == |es| && forall i :: 0 <= i < |es| ==> Works(es)[i] == es[i].work
  {
    if es != [] {
      WorksAt(es[1..]);
      assert forall i :: 0 < i < |es| ==> Works(es)[i] == Works(es[1..])[i - 1] && es[i] == es[1..][i - 1];
    }
  }

  /** Handlers that post to later times and delete no event due at the start: the wake-up fires exactly the events due,
      in numbers, in order. */
  lemma PoliteInTime(s: Slots, n: nat, now: Timespec, script: nat -> seq<Op>, m: nat)
    requires SlotsOk(s, n) && Ends(s, First(s), now, script, 0, m) && SparingScript(script, s.q.pending, now)
    ensures var o := Run(s, First(s), now, script, 0, m); WokenInTime(s.q.pending, Works(o.fired), o.last.q.pending, now)
  {
    var d := |DuePart(s.q.pending, now)|;
    var o := Run(s, First(s), now, script, 0, d);
    DueInNumbers(s.q, now);
    SparingRun(s.q, n, s.q.pending, now, script, 0);
    PoliteFromFirst(s, n, now, script);
    RunEnded(s, First(s), now, script, 0, m, d);
    WorksAt(o.fired);
    forall e | e in o.last.q.pending && InSecond(e.time)
      ensures Nanos(now) < Nanos(e.time)
    {
      AfterIsGreater(e.time, now);
    }
  }
}

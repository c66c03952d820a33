// The bounded task owner (internal/app/certificate_tasks.go).
module CertificateTasks {

  // Callers and goroutines take atomic steps in any order.

  type Id = string

  const CONCURRENCY := 4
  const OWNER_LIMIT := 100

  /** Where the goroutine of one accepted task stands; each constructor is a point between two atomic steps. */
  datatype Point =
    | WaitingForSlot
    | CancelledWaiting   // about to leave the pending set, without a slot
    | HasSlot            // about to look at its context
    | CancelledWithSlot  // about to leave the pending set, holding a slot
    | Entering           // about to move from pending to active
    | Running
    | Leaving            // no longer active, about to give its slot back
    | Closing            // about to cancel its context
    | Signing            // about to be counted as done
    | Ended

  datatype Worker = Worker(id: Id, point: Point, cancelled: bool)

  /** The maps name the goroutine whose context they can cancel. */
  datatype Owner = Owner(stopping: bool, closed: bool, active: map<Id, nat>, pending: map<Id, nat>, slots: nat,
                         waiting: nat, workers: seq<Worker>)

  const EMPTY := Owner(false, false, map[], map[], 0, 0, [])

  /** What can happen next: a call, a step of goroutine w, or a cancellation that reaches it. */
  datatype Event =
    | Start(id: Id)
    | Advance(w: nat, preferCancel: bool)
    | Cancel(w: nat)
    | BeginStop
    | CloseContext

  function CanStart(s: Owner, id: Id): bool {
    !s.stopping && |s.active| + |s.pending| < OWNER_LIMIT && id !in s.active && id !in s.pending
  }

  predicate IsCancelled(s: Owner, w: nat)
    requires w < |s.workers|
  {
    s.closed || s.workers[w].cancelled
  }

  function At(s: Owner, w: nat, point: Point): Owner
    requires w < |s.workers|
  {
    s.(workers := s.workers[w := s.workers[w].(point := point)])
  }

  /** One step of a goroutine; a step that cannot be taken yet changes nothing. */
  function AdvanceWorker(s: Owner, w: nat, preferCancel: bool): Owner
    requires w < |s.workers|
  {
    var id := s.workers[w].id;
    match s.workers[w].point
    case WaitingForSlot =>
      if s.slots < CONCURRENCY && !(preferCancel && IsCancelled(s, w)) then At(s, w, HasSlot).(slots := s.slots + 1)
      else if IsCancelled(s, w) then At(s, w, CancelledWaiting)
      else s
    case CancelledWaiting => At(s, w, Closing).(pending := s.pending - {id})
    case HasSlot => if IsCancelled(s, w) then At(s, w, CancelledWithSlot) else At(s, w, Entering)
    case CancelledWithSlot => At(s, w, Leaving).(pending := s.pending - {id})
    case Entering =>
      var t := s.(pending := s.pending - {id});
      if s.stopping || IsCancelled(s, w) then At(t, w, Leaving) else At(t, w, Running).(active := s.active[id := w])
    case Running => At(s, w, Leaving).(active := s.active - {id})
    case Leaving => if s.slots > 0 then At(s, w, Closing).(slots := s.slots - 1) else s
    case Closing => s.(workers := s.workers[w := s.workers[w].(point := Signing, cancelled := true)])
    case Signing => if s.waiting > 0 then At(s, w, Ended).(waiting := s.waiting - 1) else s
    case Ended => s
  }

  function Step(s: Owner, e: Event): Owner {
    match e
    case Start(id) =>
      if CanStart(s, id) then
        s.(pending := s.pending[id := |s.workers|], waiting := s.waiting + 1,
          workers := s.workers + [Worker(id, WaitingForSlot, false)])
      else s
    case Advance(w, preferCancel) => if w < |s.workers| then AdvanceWorker(s, w, preferCancel) else s
    case Cancel(w) => if w < |s.workers| then s.(workers := s.workers[w := s.workers[w].(cancelled := true)]) else s
    case BeginStop => s.(stopping := true)
    case CloseContext => if s.stopping then s.(closed := true) else s
  }

  function Run(s: Owner, events: seq<Event>): Owner
    decreases |events|
  {
    if events == [] then s else Run(Step(s, events[0]), events[1..])
  }

  // ----- what every interleaving keeps

  datatype Group = InPending | WithSlot | Unfinished

  predicate In(p: Point, group: Group) {
    match group
    case InPending => p == WaitingForSlot || p == CancelledWaiting || p == HasSlot || p == CancelledWithSlot
                      || p == Entering
    case WithSlot => p == HasSlot || p == CancelledWithSlot || p == Entering || p == Running || p == Leaving
    case Unfinished => p != Ended
  }

  function Count(workers: seq<Worker>, group: Group): nat {
    if workers == [] then 0
    else Count(workers[..|workers| - 1], group) + if In(workers[|workers| - 1].point, group) then 1 else 0
  }

  /** A goroutine is in the set that its point says, under its own number. */
  predicate Listed(s: Owner, w: nat)
    requires w < |s.workers|
  {
    var worker := s.workers[w];
    && (In(worker.point, InPending) <==> worker.id in s.pending && s.pending[worker.id] == w)
    && (worker.point == Running <==> worker.id in s.active && s.active[worker.id] == w)
  }

  predicate Owned(workers: seq<Worker>, tasks: map<Id, nat>) {
    forall id | id in tasks :: tasks[id] < |workers| && workers[tasks[id]].id == id
  }

  predicate Safe(s: Owner) {
    && s.active.Keys !! s.pending.Keys
    && |s.active.Keys| + |s.pending.Keys| <= OWNER_LIMIT
    && Owned(s.workers, s.active) && Owned(s.workers, s.pending)
    && (forall w | 0 <= w < |s.workers| :: Listed(s, w))
    && s.slots == Count(s.workers, WithSlot) <= CONCURRENCY
    && s.waiting == Count(s.workers, Unfinished)
  }

  lemma {:induction false} CountUpdate(workers: seq<Worker>, w: nat, worker: Worker, group: Group)
    requires w < |workers|
    ensures Count(workers[w := worker], group)
         == Count(workers, group) - (if In(workers[w].point, group) then 1 else 0) + if In(worker.point, group) then 1
           else 0
    decreases |workers|
  {
    var last := |workers| - 1;
    if w < last {
      assert workers[w := worker][..last] == workers[..last][w := worker];
      CountUpdate(workers[..last], w, worker, group);
    } else {
      assert workers[w := worker][..last] == workers[..last];
    }
  }

  lemma CountAppend(workers: seq<Worker>, worker: Worker, group: Group)
    ensures Count(workers + [worker], group) == Count(workers, group) + if In(worker.point, group) then 1 else 0
  {
    assert (workers + [worker])[..|workers|] == workers;
  }

  lemma {:induction false} CountSome(workers: seq<Worker>, w: nat, group: Group)
    requires w < |workers| && In(workers[w].point, group)
    ensures Count(workers, group) > 0
    decreases |workers|
  {
    if w < |workers| - 1 { CountSome(workers[..|workers| - 1], w, group); }
  }

  /** What a step of a goroutine does to the two sets. */
  datatype Shift = Keep | LeavePending | Activate | Deactivate

  /** Goroutine w moves to another point and between the sets accordingly. */
  predicate Moves(s: Owner, t: Owner, w: nat, worker: Worker, shift: Shift)
    requires w < |s.workers|
  {
    var id := worker.id;
    && id == s.workers[w].id && t.workers == s.workers[w := worker]
    && match shift
       case Keep =>
         && t.pending == s.pending && t.active == s.active
         && In(worker.point, InPending) == In(s.workers[w].point, InPending)
         && (worker.point == Running) == (s.workers[w].point == Running)
       case LeavePending =>
         && t.pending == s.pending - {id} && t.active == s.active
         && In(s.workers[w].point, InPending) && !In(worker.point, InPending) && worker.point != Running
       case Activate =>
         && t.pending == s.pending - {id} && t.active == s.active[id := w]
         && In(s.workers[w].point, InPending) && worker.point == Running
       case Deactivate =>
         && t.pending == s.pending && t.active == s.active - {id}
         && s.workers[w].point == Running && !In(worker.point, InPending) && worker.point != Running
  }

  lemma MovesListed(s: Owner, t: Owner, w: nat, worker: Worker, shift: Shift, v: nat)
    requires w < |s.workers| && Moves(s, t, w, worker, shift) && v < |s.workers|
    requires Listed(s, v) && Listed(s, w) && s.active.Keys !! s.pending.Keys
    ensures Listed(t, v)
  {
    RunningIsNotPending();
    hide In;
  }

  lemma RunningIsNotPending()
    ensures !In(Running, InPending)
  {
  }

  lemma MovesOwned(s: Owner, t: Owner, w: nat, worker: Worker, shift: Shift)
    requires w < |s.workers| && Moves(s, t, w, worker, shift)
    requires Owned(s.workers, s.active) && Owned(s.workers, s.pending) && s.active.Keys !! s.pending.Keys
    ensures Owned(t.workers, t.active) && Owned(t.workers, t.pending)
  {
    hide In;
  }

  lemma MovesBounded(s: Owner, t: Owner, w: nat, worker: Worker, shift: Shift)
    requires w < |s.workers| && Moves(s, t, w, worker, shift) && Listed(s, w)
    requires s.active.Keys !! s.pending.Keys && |s.active.Keys| + |s.pending.Keys| <= OWNER_LIMIT
    ensures t.active.Keys !! t.pending.Keys && |t.active.Keys| + |t.pending.Keys| <= OWNER_LIMIT
  {
    var id := worker.id;
    hide In;
    match shift
    case Keep =>
    case LeavePending =>
      assert t.pending.Keys == s.pending.Keys - {id};
    case Activate =>
      assert t.active.Keys == s.active.Keys + {id} && t.pending.Keys == s.pending.Keys - {id};
    case Deactivate =>
      assert t.active.Keys == s.active.Keys - {id};
  }

  lemma MovesAreSafe(s: Owner, t: Owner, w: nat, worker: Worker, shift: Shift)
    requires Safe(s) && w < |s.workers| && Moves(s, t, w, worker, shift)
    requires t.slots == Count(t.workers, WithSlot) <= CONCURRENCY && t.waiting == Count(t.workers, Unfinished)
    ensures Safe(t)
  {
    assert Listed(s, w);
    MovesOwned(s, t, w, worker, shift);
    MovesBounded(s, t, w, worker, shift);
    forall v | 0 <= v < |t.workers| ensures Listed(t, v) {
      assert Listed(s, v) && |t.workers| == |s.workers|;
      MovesListed(s, t, w, worker, shift, v);
    }
    hide Count, Owned, Listed, Moves;
  }

  function ShiftOf(s: Owner, w: nat): Shift
    requires w < |s.workers|
  {
    match s.workers[w].point
    case CancelledWaiting => LeavePending
    case CancelledWithSlot => LeavePending
    case Entering => if s.stopping || IsCancelled(s, w) then LeavePending else Activate
    case Running => Deactivate
    case _ => Keep
  }

  /** How far a goroutine is from its end. */
  function Rank(p: Point): nat {
    match p
    case WaitingForSlot => 9
    case HasSlot => 8
    case Entering => 7
    case Running => 6
    case CancelledWithSlot => 6
    case CancelledWaiting => 5
    case Leaving => 4
    case Closing => 3
    case Signing => 2
    case Ended => 0
  }

  /** The effect of a step of goroutine w on the sets; it always comes closer to its end. */
  predicate Advances(s: Owner, t: Owner, w: nat)
    requires w < |s.workers|
  {
    && |t.workers| == |s.workers| && Moves(s, t, w, t.workers[w], ShiftOf(s, w))
    && Rank(t.workers[w].point) < Rank(s.workers[w].point)
  }

  /** The counters follow the points. */
  predicate CountersFollow(s: Owner, t: Owner, w: nat)
    requires w < |s.workers| == |t.workers|
  {
    var p, q := s.workers[w].point, t.workers[w].point;
    && t.slots == s.slots + (if In(q, WithSlot) then 1 else 0) - (if In(p, WithSlot) then 1 else 0) <= CONCURRENCY
    && t.waiting == s.waiting + (if In(q, Unfinished) then 1 else 0) - (if In(p, Unfinished) then 1 else 0)
  }

  lemma AdvancePending(s: Owner, w: nat, preferCancel: bool)
    requires w < |s.workers| && AdvanceWorker(s, w, preferCancel) != s && s.slots <= CONCURRENCY
    requires s.workers[w].point == WaitingForSlot || s.workers[w].point == HasSlot
    ensures var t := AdvanceWorker(s, w, preferCancel); Advances(s, t, w) && CountersFollow(s, t, w)
  {
  }

  lemma AdvanceCancelled(s: Owner, w: nat, preferCancel: bool)
    requires w < |s.workers| && AdvanceWorker(s, w, preferCancel) != s && s.slots <= CONCURRENCY
    requires s.workers[w].point == CancelledWaiting || s.workers[w].point == CancelledWithSlot
    ensures var t := AdvanceWorker(s, w, preferCancel); Advances(s, t, w) && CountersFollow(s, t, w)
  {
  }

  lemma AdvanceEntering(s: Owner, w: nat, preferCancel: bool)
    requires w < |s.workers| && AdvanceWorker(s, w, preferCancel) != s && s.slots <= CONCURRENCY
    requires s.workers[w].point == Entering || s.workers[w].point == Running
    ensures var t := AdvanceWorker(s, w, preferCancel); Advances(s, t, w) && CountersFollow(s, t, w)
  {
  }

  lemma AdvanceEnding(s: Owner, w: nat, preferCancel: bool)
    requires w < |s.workers| && AdvanceWorker(s, w, preferCancel) != s && s.slots <= CONCURRENCY
    requires s.workers[w].point == Leaving || s.workers[w].point == Closing || s.workers[w].point == Signing
    ensures var t := AdvanceWorker(s, w, preferCancel); Advances(s, t, w) && CountersFollow(s, t, w)
  {
  }

  lemma AdvanceMoves(s: Owner, w: nat, preferCancel: bool)
    requires w < |s.workers| && AdvanceWorker(s, w, preferCancel) != s && s.slots <= CONCURRENCY
    ensures var t := AdvanceWorker(s, w, preferCancel); Advances(s, t, w) && CountersFollow(s, t, w)
  {
    hide Moves, In, ShiftOf, Advances, CountersFollow;
    match s.workers[w].point
    case WaitingForSlot => AdvancePending(s, w, preferCancel);
    case HasSlot => AdvancePending(s, w, preferCancel);
    case CancelledWaiting => AdvanceCancelled(s, w, preferCancel);
    case CancelledWithSlot => AdvanceCancelled(s, w, preferCancel);
    case Entering => AdvanceEntering(s, w, preferCancel);
    case Running => AdvanceEntering(s, w, preferCancel);
    case Leaving => AdvanceEnding(s, w, preferCancel);
    case Closing => AdvanceEnding(s, w, preferCancel);
    case Signing => AdvanceEnding(s, w, preferCancel);
    case Ended =>
  }

  lemma AdvanceIsSafe(s: Owner, t: Owner, w: nat)
    requires Safe(s) && w < |s.workers| == |t.workers| && Advances(s, t, w) && CountersFollow(s, t, w)
    ensures Safe(t)
  {
    assert t.workers == s.workers[w := t.workers[w]];
    assert s.slots == Count(s.workers, WithSlot) && s.waiting == Count(s.workers, Unfinished);
    hide Safe, Count, In;
    CountUpdate(s.workers, w, t.workers[w], WithSlot);
    CountUpdate(s.workers, w, t.workers[w], Unfinished);
    MovesAreSafe(s, t, w, t.workers[w], ShiftOf(s, w));
  }

  lemma StartListed(s: Owner, id: Id, v: nat)
    requires CanStart(s, id) && v < |s.workers| && Listed(s, v) && Owned(s.workers, s.pending)
    requires Owned(s.workers, s.active)
    ensures Listed(Step(s, Start(id)), v)
  {
    hide In;
  }

  lemma OwnedGrows(workers: seq<Worker>, tasks: map<Id, nat>, worker: Worker)
    requires Owned(workers, tasks)
    ensures Owned(workers + [worker], tasks) && Owned(workers + [worker], tasks[worker.id := |workers|])
  {
  }

  lemma OneMoreKey(active: set<Id>, pending: map<Id, nat>, id: Id, w: nat)
    requires id !in pending && id !in active && active !! pending.Keys && |active| + |pending| < OWNER_LIMIT
    ensures active !! pending[id := w].Keys && |active| + |pending[id := w].Keys| <= OWNER_LIMIT
  {
    assert pending[id := w].Keys == pending.Keys + {id};
  }

  lemma StartIsSafe(s: Owner, id: Id)
    requires Safe(s) && CanStart(s, id)
    ensures Safe(Step(s, Start(id)))
  {
    hide Count, Listed, In, Owned;
    var worker, t := Worker(id, WaitingForSlot, false), Step(s, Start(id));
    CountAppend(s.workers, worker, WithSlot);
    CountAppend(s.workers, worker, Unfinished);
    WaitingCounts();
    OwnedGrows(s.workers, s.pending, worker);
    OwnedGrows(s.workers, s.active, worker);
    OneMoreKey(s.active.Keys, s.pending, id, |s.workers|);
    forall v | 0 <= v < |t.workers| ensures Listed(t, v) {
      if v < |s.workers| {
        assert Listed(s, v);
        StartListed(s, id, v);
      } else {
        NewIsListed(s, id);
      }
    }
  }

  lemma WaitingCounts()
    ensures !In(WaitingForSlot, WithSlot) && In(WaitingForSlot, Unfinished)
  {
  }

  lemma NewIsListed(s: Owner, id: Id)
    requires CanStart(s, id) && Owned(s.workers, s.active)
    ensures Listed(Step(s, Start(id)), |s.workers|)
  {
  }

  lemma CancelIsSafe(s: Owner, w: nat)
    requires Safe(s) && w < |s.workers|
    ensures Safe(Step(s, Cancel(w)))
  {
    var worker, t := s.workers[w].(cancelled := true), Step(s, Cancel(w));
    CountUpdate(s.workers, w, worker, WithSlot);
    CountUpdate(s.workers, w, worker, Unfinished);
    MovesAreSafe(s, t, w, worker, Keep);
  }

  lemma StepIsSafe(s: Owner, e: Event)
    requires Safe(s)
    ensures Safe(Step(s, e))
  {
    match e
    case Start(id) => if CanStart(s, id) { StartIsSafe(s, id); }
    case Cancel(w) => if w < |s.workers| { CancelIsSafe(s, w); }
    case BeginStop => SameListed(s, Step(s, e));
    case CloseContext => SameListed(s, Step(s, e));
    case Advance(w, preferCancel) =>
      if w < |s.workers| && AdvanceWorker(s, w, preferCancel) != s {
        AdvanceMoves(s, w, preferCancel);
        AdvanceIsSafe(s, AdvanceWorker(s, w, preferCancel), w);
      }
  }

  lemma SameListed(s: Owner, t: Owner)
    requires Safe(s) && t == s.(stopping := t.stopping, closed := t.closed)
    ensures Safe(t)
  {
    forall v | 0 <= v < |t.workers| ensures Listed(t, v) { assert Listed(s, v); }
  }

  lemma {:induction false} RunIsSafe(s: Owner, events: seq<Event>)
    requires Safe(s)
    ensures Safe(Run(s, events))
    decreases |events|
  {
    hide Safe, Step;
    if events != [] {
      StepIsSafe(s, events[0]);
      RunIsSafe(Step(s, events[0]), events[1..]);
    }
  }

  // ----- consequences

  function RunningIds(workers: seq<Worker>): set<Id> {
    set w | 0 <= w < |workers| && workers[w].point == Running :: workers[w].id
  }

  lemma {:induction false} RunningBounded(workers: seq<Worker>)
    ensures |RunningIds(workers)| <= Count(workers, WithSlot)
    decreases |workers|
  {
    if workers != [] {
      var last := |workers| - 1;
      var front := workers[..last];
      RunningBounded(front);
      var more := if workers[last].point == Running then {workers[last].id} else {};
      assert RunningIds(workers) == RunningIds(front) + more by {
        assert forall w | 0 <= w < last :: front[w] == workers[w];
      }
      assert |RunningIds(front) + more| <= |RunningIds(front)| + |more|;
    }
  }

  lemma {:induction false} Smaller<T>(a: set<T>, b: set<T>)
    requires a <= b
    ensures |a| <= |b|
  {
    assert |b - a| == |b| - |a|;
  }

  lemma EmptyIsSafe()
    ensures Safe(EMPTY)
  {
  }

  /** Over every interleaving: the bounds, disjoint sets, and no task run by two goroutines at once. */
  lemma BoundedOwner(events: seq<Event>)
    ensures var s := Run(EMPTY, events);
      && |s.active.Keys| <= 4 && |s.active.Keys| + |s.pending.Keys| <= 100
      && s.active.Keys !! s.pending.Keys
      && forall v, w | 0 <= v < w < |s.workers| && s.workers[v].id == s.workers[w].id ::
           !(HasTask(s.workers[v].point) && HasTask(s.workers[w].point))
  {
    EmptyIsSafe();
    RunIsSafe(EMPTY, events);
    var s := Run(EMPTY, events);
    RunningBounded(s.workers);
    hide Count;
    forall id | id in s.active.Keys ensures id in RunningIds(s.workers) {
      assert Listed(s, s.active[id]);
    }
    Smaller(s.active.Keys, RunningIds(s.workers));
    forall v, w | 0 <= v < w < |s.workers| && s.workers[v].id == s.workers[w].id
      ensures !(HasTask(s.workers[v].point) && HasTask(s.workers[w].point))
    {
      assert Listed(s, v) && Listed(s, w);
    }
  }

  /** From being accepted until it has left both sets a goroutine owns its task. */
  predicate HasTask(p: Point) {
    In(p, InPending) || p == Running
  }

  lemma StepAfterStop(s: Owner, e: Event)
    requires s.stopping && s.slots <= CONCURRENCY
    ensures var t := Step(s, e);
      t.stopping && t.active.Keys <= s.active.Keys && t.pending.Keys <= s.pending.Keys && t.waiting <= s.waiting
  {
    hide AdvanceWorker;
    if e.Advance? && e.w < |s.workers| {
      var t := AdvanceWorker(s, e.w, e.preferCancel);
      if t != s { AdvanceMoves(s, e.w, e.preferCancel); }
      StopStays(s, e.w, e.preferCancel);
    }
  }

  lemma StopStays(s: Owner, w: nat, preferCancel: bool)
    requires w < |s.workers|
    ensures AdvanceWorker(s, w, preferCancel).stopping == s.stopping
  {
  }

  /** Once stopping is set no task becomes active or pending, whatever happens next. */
  lemma {:induction false} NothingStartsAfterStop(s: Owner, events: seq<Event>)
    requires Safe(s) && s.stopping
    ensures var t := Run(s, events);
      t.stopping && t.active.Keys <= s.active.Keys && t.pending.Keys <= s.pending.Keys && t.waiting <= s.waiting
    decreases |events|
  {
    hide Step;
    if events != [] {
      StepAfterStop(s, events[0]);
      StepIsSafe(s, events[0]);
      NothingStartsAfterStop(Step(s, events[0]), events[1..]);
    }
  }

  /** When Stop has seen the wait group at zero, both sets are empty and stay so. */
  lemma StopLeavesNothing(before: seq<Event>, after: seq<Event>)
    requires Run(EMPTY, before).stopping && Run(EMPTY, before).waiting == 0
    ensures Run(EMPTY, before).active == map[] && Run(EMPTY, before).pending == map[]
    ensures var t := Run(Run(EMPTY, before), after); t.active == map[] && t.pending == map[] && t.waiting == 0
  {
    var s := Run(EMPTY, before);
    EmptyIsSafe();
    RunIsSafe(EMPTY, before);
    NothingStartsAfterStop(s, after);
    NothingLeft(s);
  }

  // ----- stopping ends

  function Work(workers: seq<Worker>): nat {
    if workers == [] then 0 else Work(workers[..|workers| - 1]) + Rank(workers[|workers| - 1].point)
  }

  lemma {:induction false} WorkUpdate(workers: seq<Worker>, w: nat, worker: Worker)
    requires w < |workers|
    ensures Work(workers[w := worker]) == Work(workers) - Rank(workers[w].point) + Rank(worker.point)
    ensures Rank(workers[w].point) <= Work(workers)
    decreases |workers|
  {
    var last := |workers| - 1;
    if w < last {
      assert workers[w := worker][..last] == workers[..last][w := worker];
      WorkUpdate(workers[..last], w, worker);
    } else {
      assert workers[w := worker][..last] == workers[..last];
    }
  }

  /** After the context is closed no goroutine is ever stuck: as long as its task returns, every step can be taken. */
  lemma NoneIsStuck(s: Owner, w: nat)
    requires Safe(s) && s.closed && w < |s.workers| && s.workers[w].point != Ended
    ensures AdvanceWorker(s, w, true) != s
  {
    if s.workers[w].point == Leaving { CountSome(s.workers, w, WithSlot); }
    if s.workers[w].point == Signing { CountSome(s.workers, w, Unfinished); }
    hide Count, Listed, Owned;
    assert AdvanceWorker(s, w, true).workers[w].point != s.workers[w].point;
  }

  /** Each such step uses up work that nothing gives back once stopping is set. */
  lemma StepUsesWork(s: Owner, e: Event)
    requires s.stopping && s.slots <= CONCURRENCY
    ensures Work(Step(s, e).workers) <= Work(s.workers)
    ensures e.Advance? && e.w < |s.workers| && Step(s, e) != s ==> Work(Step(s, e).workers) < Work(s.workers)
  {
    hide AdvanceWorker, Rank, In, ShiftOf;
    match e
    case Advance(w, preferCancel) =>
      if w < |s.workers| {
        var t := AdvanceWorker(s, w, preferCancel);
        if t != s {
          AdvanceMoves(s, w, preferCancel);
          WorkUpdate(s.workers, w, t.workers[w]);
        }
      }
    case Cancel(w) =>
      if w < |s.workers| { WorkUpdate(s.workers, w, s.workers[w].(cancelled := true)); }
    case Start(_) =>
    case BeginStop =>
    case CloseContext =>
  }

  lemma {:induction false} NoWorkLeft(workers: seq<Worker>)
    requires Work(workers) == 0
    ensures Count(workers, Unfinished) == 0
    decreases |workers|
  {
    if workers != [] { NoWorkLeft(workers[..|workers| - 1]); }
  }

  /** The steps of goroutines that were taken in a run. */
  function Taken(s: Owner, events: seq<Event>): nat
    decreases |events|
  {
    if events == [] then 0
    else
      var e, t := events[0], Step(s, events[0]);
      Taken(t, events[1..]) + if e.Advance? && e.w < |s.workers| && t != s then 1 else 0
  }

  /** Once stopping is set a run takes no more steps than there is work. */
  lemma {:induction false} StepsAreWork(s: Owner, events: seq<Event>)
    requires Safe(s) && s.stopping
    ensures Work(Run(s, events).workers) + Taken(s, events) <= Work(s.workers)
    decreases |events|
  {
    hide Step, Safe, Work;
    if events != [] {
      StepUsesWork(s, events[0]) by { hide *; SlotsBounded(s); }
      StepAfterStop(s, events[0]) by { hide *; SlotsBounded(s); }
      StepIsSafe(s, events[0]);
      StepsAreWork(Step(s, events[0]), events[1..]);
    }
  }

  lemma SlotsBounded(s: Owner)
    requires Safe(s)
    ensures s.slots <= CONCURRENCY
  {
  }

  lemma {:induction false} SomeUnfinished(workers: seq<Worker>) returns (w: nat)
    requires Count(workers, Unfinished) > 0
    ensures w < |workers| && workers[w].point != Ended
    decreases |workers|
  {
    var last := |workers| - 1;
    if workers[last].point != Ended { w := last; } else { w := SomeUnfinished(workers[..last]); }
  }

  /** When no goroutine is left the sets are empty. */
  lemma NothingLeft(s: Owner)
    requires Safe(s) && Count(s.workers, Unfinished) == 0
    ensures s.waiting == 0 && s.active == map[] && s.pending == map[]
  {
    forall id | id in s.active ensures false {
      assert Listed(s, s.active[id]);
      CountSome(s.workers, s.active[id], Unfinished);
    }
    forall id | id in s.pending ensures false {
      assert Listed(s, s.pending[id]);
      CountSome(s.workers, s.pending[id], Unfinished);
    }
    assert s.active.Keys == {} && s.pending.Keys == {};
  }

  /** After the context is closed the goroutines can be taken to their end, step by step. */
  lemma {:induction false} CanEnd(s: Owner) returns (events: seq<Event>)
    requires Safe(s) && s.stopping && s.closed
    ensures Taken(s, events) == |events| && Count(Run(s, events).workers, Unfinished) == 0
    decreases Work(s.workers)
  {
    if Count(s.workers, Unfinished) == 0 {
      events := [];
    } else {
      var w := SomeUnfinished(s.workers);
      NoneIsStuck(s, w);
      var first := Advance(w, true);
      var t := Step(s, first);
      StepUsesWork(s, first);
      StepIsSafe(s, first);
      Stopped(s, w);
      hide Safe, Work, Step, Count;
      var rest := CanEnd(t);
      events := [first] + rest;
      assert events[1..] == rest;
    }
  }

  lemma Stopped(s: Owner, w: nat)
    requires w < |s.workers|
    ensures AdvanceWorker(s, w, true).stopping == s.stopping && AdvanceWorker(s, w, true).closed == s.closed
  {
  }

  /**
   * Stop returns: from any state that is reached with stopping set and the context closed,
   * every run that takes as many steps of goroutines as there is work left ends them all,
   * no run takes more, and there is such a run as long as the tasks return.
   */
  lemma StopEnds(before: seq<Event>, after: seq<Event>) returns (ending: seq<Event>)
    requires Run(EMPTY, before).stopping && Run(EMPTY, before).closed
    ensures var s := Run(EMPTY, before);
      && Taken(s, after) <= Work(s.workers)
      && (Taken(s, after) == Work(s.workers)
         ==> var t := Run(s, after); t.waiting == 0 && t.active == map[] && t.pending == map[])
      && Taken(s, ending) == |ending|
      && var t := Run(s, ending); t.waiting == 0 && t.active == map[] && t.pending == map[]
  {
    var s := Run(EMPTY, before);
    EmptyIsSafe();
    RunIsSafe(EMPTY, before);
    StepsAreWork(s, after);
    RunIsSafe(s, after);
    ending := CanEnd(s);
    RunIsSafe(s, ending);
    hide Safe, Run, Work, Count, Taken;
    if Taken(s, after) == Work(s.workers) {
      NoWorkLeft(Run(s, after).workers);
      NothingLeft(Run(s, after));
    }
    NothingLeft(Run(s, ending));
  }
}

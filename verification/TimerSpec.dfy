/**
  The timer system of rdtimer.c as functions on one state: what each region executed under
  rd_timers_lock does to the timers, to the list of armed timers, to the cached wake-up time,
  to the queued rd_timer_call events and to the timer thread.
  Using a timer that is not allocated, freeing it twice, walking a list that holds one, or
  failing rd_timer_call's assertion sets the fault flag.
 */
module TimerSpec {

  type Id = nat

  datatype Kind = Once | Recurring

  datatype Timer = Timer(kind: Kind, interval: nat, next: nat, called: int, atomic: bool, removed: bool)

  /** The timer thread holds the lock and is about to scan, or waits on the condition. */
  datatype Worker = Running | Waiting(until: nat, signalled: bool)

  datatype State = State(
    heap: map<Id, Timer>,       // allocated timers
    freed: set<Id>,             // timers that were allocated once and are not any more
    armed: seq<Id>,             // rd_timers
    nextTs: nat,                // rd_timers_next_ts
    queued: multiset<Id>,       // rd_timer_call events on the threads' event queues
    running: multiset<Id>,      // rd_timer_call events inside their callback
    owned: set<Id>,             // timers the application may still pass to the library
    worker: Worker,
    fault: bool)

  const HOUR: nat := 3600 * 1000000
  const TWO31: nat := 0x8000_0000
  const TWO32: nat := 0x1_0000_0000

  const INITIAL := State(map[], {}, [], 0, multiset{}, multiset{}, {}, Running, false)

  // ---------- Deadlines and their comparison ----------

  /** Milliseconds to a deadline: the product is taken in 32 bits (rdtimer.c:116). */
  function Deadline(now: nat, ms: nat): nat {
    now + (ms * 1000) % TWO32
  }

  /** rd_timer_cmp: the 64-bit difference cut down to a signed 32-bit integer. */
  function Cmp(a: nat, b: nat): int {
    (a - b + TWO31) % TWO32 - TWO31
  }

  function Next(h: map<Id, Timer>, id: Id): nat {
    if id in h then h[id].next else 0
  }

  /** LIST_INSERT_SORTED. */
  function InsertSorted(h: map<Id, Timer>, l: seq<Id>, id: Id): seq<Id> {
    if l == [] then [id]
    else if Cmp(Next(h, id), Next(h, l[0])) <= 0 then [id] + l
    else [l[0]] + InsertSorted(h, l[1..], id)
  }

  /** LIST_REMOVE. */
  function Without(l: seq<Id>, id: Id): seq<Id> {
    if l == [] then [] else if l[0] == id then l[1..] else [l[0]] + Without(l[1..], id)
  }

  predicate Dangling(s: State) {
    exists x :: x in s.armed && x !in s.heap
  }

  // ---------- The locked regions ----------

  function Fault(s: State): State {
    s.(fault := true)
  }

  /** rd_timers_next_update. */
  function NextUpdate(s: State, first: seq<Id>, now: nat): State {
    s.(nextTs := if first != [] then Next(s.heap, first[0]) else now + HOUR,
       worker := if s.worker.Waiting? then s.worker.(signalled := true) else s.worker)
  }

  /** rd_timer_stop0; now is the clock reading an emptied list needs. */
  function Stop0(s: State, id: Id, now: nat): State {
    if id !in s.heap || Dangling(s) then Fault(s)
    else if s.heap[id].next == 0 then s
    else
      var s1 := if s.heap[id].called == 0 && s.armed != [] && s.armed[0] == id
                then NextUpdate(s, s.armed[1..], now) else s;
      s1.(armed := Without(s.armed, id), heap := s.heap[id := s.heap[id].(next := 0)])
  }

  /** Gives the timer deadline d and links it, at the head if it is due before the cached wake-up time. */
  function Link(s: State, id: Id, d: nat, update: bool, now: nat): State
    requires id in s.heap
  {
    var s1 := s.(heap := s.heap[id := s.heap[id].(next := d)]);
    if d < s.nextTs then
      var s2 := s1.(armed := [id] + s.armed);
      if update then NextUpdate(s2, [id], now) else s2
    else
      s1.(armed := InsertSorted(s1.heap, s.armed, id))
  }

  /** rd_timer_start0; update says whether a new head of the list resets the wake-up time. */
  function Start0(s: State, id: Id, ms: nat, update: bool, c0: nat, c1: nat): State {
    if id !in s.heap || Dangling(s) then Fault(s)
    else Link(Stop0(s, id, c0), id, Deadline(c1, ms), update, c1)
  }

  /** rd_timer_destroy0. */
  function Destroy0(s: State, id: Id, now: nat): State {
    if id !in s.heap || Dangling(s) then Fault(s)
    else
      var s1 := Stop0(s, id, now);
      if s1.heap[id].called != 0 then s1.(heap := s1.heap[id := s1.heap[id].(removed := true)])
      else s1.(heap := s1.heap - {id}, freed := s1.freed + {id})
  }

  /** rd_timer_new. */
  function Create(s: State, id: Id, kind: Kind): State {
    s.(heap := s.heap[id := Timer(kind, 0, 0, 0, false, false)], owned := s.owned + {id})
  }

  /** rd_timer_start. */
  function Start(s: State, id: Id, ms: nat, c0: nat, c1: nat): State {
    if id !in s.heap then Fault(s)
    else Start0(s.(heap := s.heap[id := s.heap[id].(interval := ms)]), id, ms, true, c0, c1)
  }

  /** rd_timer_add: the application keeps no reference. */
  function AddAtomic(s: State, id: Id, kind: Kind, ms: nat, c0: nat, c1: nat): State {
    Start(s.(heap := s.heap[id := Timer(kind, 0, 0, 0, true, false)]), id, ms, c0, c1)
  }

  /** rd_timer_destroy, after which the application must not use the timer. */
  function Destroy(s: State, id: Id, now: nat): State {
    Destroy0(s.(owned := s.owned - {id}), id, now)
  }

  /** A thread takes an rd_timer_call event off its queue and enters the callback (rdtimer.c:150-155). */
  function Begin(s: State, id: Id): State {
    var s1 := s.(queued := s.queued - multiset{id}, running := s.running + multiset{id});
    if id !in s.heap || s.heap[id].called <= 0 then Fault(s1) else s1
  }

  /** The callback has returned (rdtimer.c:159-175). */
  function End(s: State, id: Id, now: nat): State {
    var s1 := s.(running := s.running - multiset{id});
    if id !in s.heap then Fault(s1)
    else
      var t := s.heap[id].(called := s.heap[id].called - 1);
      var s2 := s1.(heap := s.heap[id := t]);
      if t.removed && t.called == 0 then Destroy0(s2, id, now)
      else if t.kind == Once && t.atomic then Destroy0(s2, id, now)
      else s2
  }

  /** The head of the list leaves it and one event is queued for it (rdtimer.c:198-225). */
  function FireHead(s: State): State
    requires s.armed != [] && s.armed[0] in s.heap
  {
    var id := s.armed[0];
    s.(armed := s.armed[1..],
       heap := s.heap[id := s.heap[id].(next := 0, called := s.heap[id].called + 1)],
       queued := s.queued + multiset{id})
  }

  /** The first loop of rd_timers_run: fires from the head as long as it has expired. */
  function Fire(s: State, now: nat): (r: (State, seq<Id>))
    decreases |s.armed|
  {
    if s.armed == [] || s.armed[0] !in s.heap || s.heap[s.armed[0]].next > now then (s, [])
    else
      var (s1, rest) := Fire(FireHead(s), now);
      (s1, [s.armed[0]] + rest)
  }

  /** The second loop: fired recurring timers are started again, the k-th one at ticks[k]. */
  function Restart(s: State, callouts: seq<Id>, ticks: seq<nat>): State
    requires |callouts| <= |ticks|
    decreases |callouts|
  {
    if callouts == [] then s
    else
      var id := callouts[0];
      var s1 := if id in s.heap && s.heap[id].kind == Recurring
                then Start0(s, id, s.heap[id].interval, false, ticks[0], ticks[0]) else s;
      Restart(s1, callouts[1..], ticks[1..])
  }

  /** One round of rd_timers_run, up to waiting on the condition. */
  function Scan(s: State, now: nat, ticks: seq<nat>, c: nat): State
    requires |s.armed| <= |ticks|
  {
    if Dangling(s) then Fault(s)
    else
      var (s1, callouts) := Fire(s, now);
      FireShrinks(s, now);
      var s2 := NextUpdate(Restart(s1, callouts, ticks), Restart(s1, callouts, ticks).armed, c);
      s2.(worker := Waiting(s2.nextTs, false))
  }

  predicate HeadDue(s: State, now: nat) {
    s.armed != [] && s.armed[0] in s.heap && s.heap[s.armed[0]].next <= now
  }

  lemma FireSteps(s: State, now: nat)
    ensures !HeadDue(s, now) ==> Fire(s, now) == (s, [])
    ensures HeadDue(s, now) ==> Fire(s, now) == (Fire(FireHead(s), now).0, [s.armed[0]] + Fire(FireHead(s), now).1)
  {
  }

  /** What leaves the list is what is called out, in list order. */
  lemma {:induction false} FireShrinks(s: State, now: nat)
    ensures Fire(s, now).1 + Fire(s, now).0.armed == s.armed
    ensures |Fire(s, now).1| + |Fire(s, now).0.armed| == |s.armed|
    decreases |s.armed|
  {
    if !(s.armed == [] || s.armed[0] !in s.heap || s.heap[s.armed[0]].next > now) {
      FireShrinks(FireHead(s), now);
      var (s', rest) := Fire(FireHead(s), now);
      assert [s.armed[0]] + rest + s'.armed == [s.armed[0]] + (rest + s'.armed);
    }
  }

  // ---------- Steps and runs ----------

  datatype Step =
    | DoCreate(id: Id, kind: Kind)
    | DoAdd(id: Id, kind: Kind, ms: nat, c0: nat, c1: nat)
    | DoStart(id: Id, ms: nat, c0: nat, c1: nat)
    | DoStop(id: Id, c0: nat)
    | DoDestroy(id: Id, c0: nat)
    | DoBegin(id: Id)
    | DoEnd(id: Id, c0: nat)
    | Wake
    | DoScan(now: nat, ticks: seq<nat>, c: nat)

  /** Who may take a step: the application only uses timers it owns, the clock never runs backwards. */
  predicate Enabled(s: State, step: Step) {
    match step
    case DoCreate(id, _) => id !in s.heap && id !in s.freed
    case DoAdd(id, _, _, c0, c1) => id !in s.heap && id !in s.freed && 0 < c0 <= c1
    case DoStart(id, _, c0, c1) => id in s.owned && 0 < c0 <= c1
    case DoStop(id, c0) => id in s.owned && 0 < c0
    case DoDestroy(id, c0) => id in s.owned && 0 < c0
    case DoBegin(id) => id in s.queued
    case DoEnd(id, c0) => id in s.running && 0 < c0
    case Wake => s.worker.Waiting?
    case DoScan(now, ticks, c) =>
      s.worker.Running? && |s.armed| <= |ticks| && 0 < now && forall k :: 0 <= k < |ticks| ==> now <= ticks[k]
  }

  function Do(s: State, step: Step): State
    requires Enabled(s, step)
  {
    match step
    case DoCreate(id, kind) => Create(s, id, kind)
    case DoAdd(id, kind, ms, c0, c1) => AddAtomic(s, id, kind, ms, c0, c1)
    case DoStart(id, ms, c0, c1) => Start(s, id, ms, c0, c1)
    case DoStop(id, c0) => Stop0(s, id, c0)
    case DoDestroy(id, c0) => Destroy(s, id, c0)
    case DoBegin(id) => Begin(s, id)
    case DoEnd(id, c0) => End(s, id, c0)
    case Wake => s.(worker := Running)
    case DoScan(now, ticks, c) => Scan(s, now, ticks, c)
  }

  /** Armed deadlines lie within 2^31 - 1 microseconds of each other, so rd_timer_cmp keeps their order. */
  ghost predicate InWindow(s: State) {
    forall x, y :: x in s.armed && y in s.armed ==> Next(s.heap, x) - Next(s.heap, y) < TWO31
  }

  ghost predicate Follows(s: State, step: Step, s': State) {
    Enabled(s, step) && s' == Do(s, step)
  }

  ghost predicate IsRun(states: seq<State>, steps: seq<Step>) {
    && |states| == |steps| + 1 && states[0] == INITIAL
    && forall k :: 0 <= k < |steps| ==> Follows(states[k], steps[k], states[k + 1])
  }
}

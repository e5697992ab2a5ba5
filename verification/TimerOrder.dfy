/**
  When the list of armed timers is in order: exactly as long as every insertion has been faithful,
  which the comparison's window ensures and without which a wake-up can be lost.
 */
module TimerOrder {
  import opened TimerSpec
  import opened TimerLists
  import opened TimerSafety

  // ---------- An order that holds after a step comes from faithful insertions ----------

  lemma LinkBefore(s: State, id: Id, d: nat, update: bool, now: nat)
    requires Listed(s) && id in s.heap && s.heap[id].next == 0 && 0 < d
    requires Sorted(Link(s, id, d, update, now).heap, Link(s, id, d, update, now).armed)
    ensures Sorted(s.heap, s.armed)
  {
    var s' := Link(s, id, d, update, now);
    LinkLists(s, id, d, update, now);
    if d < s.nextTs {
      assert s'.armed == [id] + s.armed && s'.armed[1..] == s.armed;
    } else {
      SortedBefore(s'.heap, s.armed, id);
    }
    SortedFrame(s'.heap, s.heap, s.armed);
  }

  lemma StartSortedIsFaithful(s: State, id: Id, ms: nat, update: bool, c0: nat, c1: nat)
    requires Core(s, true) && id in s.heap && 0 < c1
    requires Sorted(Start0(s, id, ms, update, c0, c1).heap, Start0(s, id, ms, update, c0, c1).armed)
    ensures StartFaithful(s, id, ms, c0, c1)
  {
    NoneDangling(s);
    StopLists(s, id, c0);
    StopKeeps(s, id, c0, true);
    CoreLists(s, true);
    DeadlineAfter(c1, ms);
    hide Stop0, Link, Sorted, Deadline, Dangling, Listed;
    LinkSorted(Stop0(s, id, c0), id, Deadline(c1, ms), update, c1);
  }

  /** What is in order after the restarts was in order before them. */
  lemma {:induction false} RestartBefore(s: State, callouts: seq<Id>, ticks: seq<nat>, now: nat)
    requires Listed(s) && Restartable(s, callouts, ticks, now)
    requires Sorted(Restart(s, callouts, ticks).heap, Restart(s, callouts, ticks).armed)
    ensures Sorted(s.heap, s.armed)
    decreases |callouts|
  {
    if callouts != [] {
      var id, s1 := callouts[0], RestartOne(s, callouts[0], ticks[0]);
      RestartOneLists(s, callouts, ticks, now);
      assert Restart(s, callouts, ticks) == Restart(s1, callouts[1..], ticks[1..]);
      hide Restart, Sorted, Listed;
      RestartBefore(s1, callouts[1..], ticks[1..], now);
      OneBefore(s, callouts, ticks, now);
    }
  }

  lemma OneBefore(s: State, callouts: seq<Id>, ticks: seq<nat>, now: nat)
    requires Listed(s) && Restartable(s, callouts, ticks, now) && callouts != []
    requires var s1 := RestartOne(s, callouts[0], ticks[0]); Sorted(s1.heap, s1.armed)
    ensures Sorted(s.heap, s.armed)
  {
    var id := callouts[0];
    assert id in callouts;
    if s.heap[id].kind == Recurring {
      var ms := s.heap[id].interval;
      NoneDangling(s);
      StopLists(s, id, ticks[0]);
      DeadlineAfter(ticks[0], ms);
      hide Link, Stop0, Sorted, Listed, Deadline, Dangling;
      LinkBefore(s, id, Deadline(ticks[0], ms), false, ticks[0]);
    }
  }

  lemma {:induction false} RestartSortedIsFaithful(s: State, callouts: seq<Id>, ticks: seq<nat>, now: nat)
    requires Core(s, true) && Restartable(s, callouts, ticks, now) && (callouts != [] ==> s.nextTs <= now)
    requires Sorted(Restart(s, callouts, ticks).heap, Restart(s, callouts, ticks).armed)
    ensures RestartFaithful(s, callouts, ticks)
    decreases |callouts|
  {
    if callouts != [] {
      var id, tick, s1 := callouts[0], ticks[0], RestartOne(s, callouts[0], ticks[0]);
      assert id in callouts;
      CoreLists(s, true);
      RestartOneLists(s, callouts, ticks, now);
      assert Restart(s, callouts, ticks) == Restart(s1, callouts[1..], ticks[1..]);
      hide Core, Restart, Sorted, Start0, StartFaithful, Deadline, Listed;
      RestartBefore(s1, callouts[1..], ticks[1..], now);
      if s.heap[id].kind == Recurring {
        StartSortedIsFaithful(s, id, s.heap[id].interval, false, tick, tick);
        DeadlineAfter(tick, s.heap[id].interval);
        StartKeeps(s, id, s.heap[id].interval, false, tick, tick, true);
      }
      RestartSortedIsFaithful(s1, callouts[1..], ticks[1..], now);
    }
  }

  lemma ScanSortedIsFaithful(s: State, now: nat, ticks: seq<nat>, c: nat)
    requires Inv(s, true) && Enabled(s, DoScan(now, ticks, c))
    requires Sorted(Scan(s, now, ticks, c).heap, Scan(s, now, ticks, c).armed)
    ensures StepFaithful(s, DoScan(now, ticks, c))
  {
    ScanEffect(s, now, ticks, c, true);
    FireShrinks(s, now);
    FireIsExact(s, now, {}, true);
    FiredRestartable(s, Fire(s, now).0, Fire(s, now).1, ticks, now, true);
    hide Core, Fire, Restart, Fired, Stations, Sorted, RestartFaithful, Scan;
    RestartSortedIsFaithful(Fire(s, now).0, Fire(s, now).1, ticks, now);
  }

  /** A step from a state in order leads to a state in order if and only if its insertions are faithful. */
  lemma StepSortedIff(s: State, step: Step)
    requires Inv(s, true) && Enabled(s, step)
    ensures Sorted(Do(s, step).heap, Do(s, step).armed) <==> StepFaithful(s, step)
  {
    if StepFaithful(s, step) {
      StepKeeps(s, step, true);
    } else {
      hide Core, Sorted, Stop0, Scan, Begin, End, Destroy;
      match step
      case DoAdd(id, kind, ms, c0, c1) =>
        ApiAdd(s, id, kind, ms, c0, c1);
      case DoStart(id, ms, c0, c1) =>
        ApiStart(s, id, ms, c0, c1);
      case DoScan(now, ticks, c) =>
        if Sorted(Scan(s, now, ticks, c).heap, Scan(s, now, ticks, c).armed) {
          ScanSortedIsFaithful(s, now, ticks, c);
        }
      case _ =>
    }
  }

  lemma ApiStart(s: State, id: Id, ms: nat, c0: nat, c1: nat)
    requires Core(s, true) && id in s.heap && 0 < c1
    ensures var s1 := s.(heap := s.heap[id := s.heap[id].(interval := ms)]);
      Sorted(Start(s, id, ms, c0, c1).heap, Start(s, id, ms, c0, c1).armed) ==> StartFaithful(s1, id, ms, c0, c1)
  {
    var s1 := s.(heap := s.heap[id := s.heap[id].(interval := ms)]);
    RetouchKeeps(s, id, s.heap[id].(interval := ms), true);
    hide Core, Sorted, StartFaithful, Start0;
    if Sorted(Start0(s1, id, ms, true, c0, c1).heap, Start0(s1, id, ms, true, c0, c1).armed) {
      StartSortedIsFaithful(s1, id, ms, true, c0, c1);
    }
  }

  lemma ApiAdd(s: State, id: Id, kind: Kind, ms: nat, c0: nat, c1: nat)
    requires Inv(s, true) && Enabled(s, DoAdd(id, kind, ms, c0, c1))
    ensures var s' := Do(s, DoAdd(id, kind, ms, c0, c1));
      Sorted(s'.heap, s'.armed) ==> StepFaithful(s, DoAdd(id, kind, ms, c0, c1))
  {
    var t := Timer(kind, 0, 0, 0, true, false);
    CreateKeeps(s, id, t, true);
    hide Core, Sorted, Start, StartFaithful;
    ApiStart(s.(heap := s.heap[id := t]), id, ms, c0, c1);
    assert s.heap[id := t][id := t.(interval := ms)] == s.heap[id := Timer(kind, ms, 0, 0, true, false)];
  }

  /** In every run the list is in order up to a state if and only if every insertion before it was faithful. */
  lemma {:induction false} OrderIff(states: seq<State>, steps: seq<Step>, k: nat)
    requires IsRun(states, steps) && k < |states|
    ensures (forall j :: 0 <= j <= k ==> InOrder(states[j])) <==> AllFaithful(states, steps, k)
  {
    if k > 0 {
      OrderIff(states, steps, k - 1);
      assert Follows(states[k - 1], steps[k - 1], states[k - 1 + 1]);
      if AllFaithful(states, steps, k - 1) {
        ReachableInv(states, steps, k - 1, true);
        hide Inv, Do, Enabled, StepFaithful;
        StepSortedIff(states[k - 1], steps[k - 1]);
      }
    }
  }

  ghost predicate InOrder(s: State) {
    Sorted(s.heap, s.armed)
  }

  // ---------- Within the window ----------

  lemma WindowLink(s: State, id: Id, d: nat, update: bool, now: nat)
    requires Listed(s) && id in s.heap && s.heap[id].next == 0 && 0 < d && InWindow(Link(s, id, d, update, now))
    ensures LinkFaithful(s, id, d) && InWindow(s)
  {
    var s' := Link(s, id, d, update, now);
    LinkLists(s, id, d, update, now);
    assert id in s'.armed && forall x :: x in s.armed ==> x in s'.armed && Next(s'.heap, x) == Next(s.heap, x);
    hide Link, Listed, Extends, Faithful;
    WindowIsFaithful(s.heap, s.armed, d);
  }

  lemma WindowStart(s: State, id: Id, ms: nat, update: bool, c0: nat, c1: nat)
    requires Listed(s) && id in s.heap && 0 < c1 && InWindow(Start0(s, id, ms, update, c0, c1))
    ensures StartFaithful(s, id, ms, c0, c1) && (s.heap[id].next == 0 ==> InWindow(s))
  {
    NoneDangling(s);
    StopLists(s, id, c0);
    DeadlineAfter(c1, ms);
    hide Stop0, Link, InWindow, Deadline, Dangling, Listed;
    WindowLink(Stop0(s, id, c0), id, Deadline(c1, ms), update, c1);
  }

  lemma {:induction false} WindowRestart(s: State, callouts: seq<Id>, ticks: seq<nat>, now: nat)
    requires Listed(s) && Restartable(s, callouts, ticks, now) && InWindow(Restart(s, callouts, ticks))
    ensures RestartFaithful(s, callouts, ticks) && InWindow(s)
    decreases |callouts|
  {
    if callouts != [] {
      var id, tick, s1 := callouts[0], ticks[0], RestartOne(s, callouts[0], ticks[0]);
      assert id in callouts;
      RestartOneLists(s, callouts, ticks, now);
      assert Restart(s, callouts, ticks) == Restart(s1, callouts[1..], ticks[1..]);
      hide Restart, InWindow, Start0, StartFaithful, Listed;
      WindowRestart(s1, callouts[1..], ticks[1..], now);
      if s.heap[id].kind == Recurring {
        WindowStart(s, id, s.heap[id].interval, false, tick, tick);
      }
    }
  }

  /** A step that leaves the armed deadlines within the window makes faithful insertions only. */
  lemma WindowStep(s: State, step: Step)
    requires Inv(s, false) && Enabled(s, step) && InWindow(Do(s, step))
    ensures StepFaithful(s, step)
  {
    hide InWindow, Stop0, Scan, Begin, End, Destroy, StartFaithful, Start0, Restart, Fire;
    match step
    case DoAdd(id, kind, ms, c0, c1) =>
      var t := Timer(kind, 0, 0, 0, true, false);
      CreateKeeps(s, id, t, false);
      RetouchKeeps(s.(heap := s.heap[id := t]), id, t.(interval := ms), false);
      assert s.heap[id := t][id := t.(interval := ms)] == s.heap[id := Timer(kind, ms, 0, 0, true, false)];
      WindowStart(s.(heap := s.heap[id := Timer(kind, ms, 0, 0, true, false)]), id, ms, true, c0, c1);
    case DoStart(id, ms, c0, c1) =>
      RetouchKeeps(s, id, s.heap[id].(interval := ms), false);
      WindowStart(s.(heap := s.heap[id := s.heap[id].(interval := ms)]), id, ms, true, c0, c1);
    case DoScan(now, ticks, c) =>
      ScanEffect(s, now, ticks, c, false);
      FireIsExact(s, now, {}, false);
      SameWindow(Restart(Fire(s, now).0, Fire(s, now).1, ticks), Scan(s, now, ticks, c));
      WindowRestart(Fire(s, now).0, Fire(s, now).1, ticks, now);
    case _ =>
  }

  lemma SameWindow(s: State, s': State)
    requires s.heap == s'.heap && s.armed == s'.armed
    ensures InWindow(s) <==> InWindow(s')
  {
  }

  /** Deadlines that are always less than 2^31 microseconds apart keep the list in order throughout a run. */
  lemma WindowKeepsOrder(states: seq<State>, steps: seq<Step>, k: nat)
    requires IsRun(states, steps) && k < |states| && forall j :: 0 <= j <= k ==> InWindow(states[j])
    ensures AllFaithful(states, steps, k) && forall j :: 0 <= j <= k ==> InOrder(states[j])
  {
    forall j | 0 <= j < k ensures StepFaithful(states[j], steps[j]) {
      ReachableInv(states, steps, j, false);
      assert Follows(states[j], steps[j], states[j + 1]);
      WindowStep(states[j], steps[j]);
    }
    OrderIff(states, steps, k);
    hide StepFaithful, InWindow;
  }

  // ---------- Outside the window ----------

  /** Some run ends in s. */
  ghost predicate Reachable(s: State) {
    exists states, steps :: IsRun(states, steps) && states[|steps|] == s
  }

  lemma ReachableStep(s: State, step: Step)
    requires Reachable(s) && Enabled(s, step)
    ensures Reachable(Do(s, step))
  {
    var states, steps :| IsRun(states, steps) && states[|steps|] == s;
    var states', steps' := states + [Do(s, step)], steps + [step];
    hide Do, Enabled;
    forall k | 0 <= k < |steps'| ensures Follows(states'[k], steps'[k], states'[k + 1]) {
      if k < |steps| {
        assert Follows(states[k], steps[k], states[k + 1]);
      }
    }
    assert IsRun(states', steps') && states'[|steps'|] == Do(s, step);
  }

  /** A timer a second ahead has been started while the thread waits. */
  ghost function NearTimer(): State {
    State(map[0 := Timer(Once, 1000, 1000002, 0, false, false)], {}, [0], 1000002, multiset{}, multiset{}, {0},
          Waiting(HOUR + 1, true), false)
  }

  lemma NearTimerReached()
    ensures Reachable(NearTimer())
  {
    var start, none: seq<Step> := [INITIAL], [];
    assert IsRun(start, none) && start[|none|] == INITIAL;
    assert Reachable(INITIAL);
    var idle := INITIAL.(nextTs := HOUR + 1, worker := Waiting(HOUR + 1, false));
    assert Scan(INITIAL, 1, [], 1) == idle;
    var made := idle.(heap := map[0 := Timer(Once, 0, 0, 0, false, false)], owned := {0});
    assert Create(idle, 0, Once) == made;
    assert Deadline(2, 1000) == 1000002;
    assert Start(made, 0, 1000, 2, 2) == NearTimer();
    hide Scan, Create, Start, IsRun, Reachable;
    ReachableStep(INITIAL, DoScan(1, [], 1));
    ReachableStep(idle, DoCreate(0, Once));
    ReachableStep(made, DoStart(0, 1000, 2, 2));
  }

  /** Then one 36 minutes ahead, which goes to the head of the list. */
  ghost function FarTimer(): State {
    State(map[0 := Timer(Once, 1000, 1000002, 0, false, false), 1 := Timer(Once, 2160000, 2160000003, 0, false, false)],
          {}, [1, 0], 1000002, multiset{}, multiset{}, {0, 1}, Waiting(HOUR + 1, true), false)
  }

  lemma FarTimerReached()
    ensures Reachable(FarTimer())
  {
    hide Reachable;
    NearTimerReached();
    var made := Create(NearTimer(), 1, Once);
    ReachableStep(NearTimer(), DoCreate(1, Once));
    assert Deadline(3, 2160000) == 2160000003 && Cmp(2160000003, 1000002) == 2159000001 - TWO32;
    FarStart(made);
    hide Create, Start;
    ReachableStep(made, DoStart(1, 2160000, 3, 3));
  }

  lemma FarStart(made: State)
    requires made == Create(NearTimer(), 1, Once)
    requires Deadline(3, 2160000) == 2160000003 && Cmp(2160000003, 1000002) < 0
    ensures Start(made, 1, 2160000, 3, 3) == FarTimer()
  {
    hide Deadline, Cmp;
    var h := made.heap[1 := made.heap[1].(interval := 2160000)];
    assert InsertSorted(h[1 := h[1].(next := 2160000003)], [0], 1) == [1] + [0] == [1, 0];
  }

  /** A run in which a wake-up is lost: the thread sleeps 35 minutes past the deadline of an armed timer. */
  lemma WakeupLostOutsideWindow()
    ensures exists s :: (Reachable(s) && s.worker.Waiting? && !s.worker.signalled && 0 in s.armed
                         && Next(s.heap, 0) + 35 * 60 * 1000000 < s.worker.until)
  {
    FarTimerReached();
    var awake := FarTimer().(worker := Running);
    assert Fire(awake, 4) == (awake, []);
    var asleep := Scan(awake, 4, [4, 4], 4);
    assert asleep == awake.(nextTs := 2160000003, worker := Waiting(2160000003, false));
    hide Scan, Fire, Reachable;
    ReachableStep(FarTimer(), Wake);
    ReachableStep(awake, DoScan(4, [4, 4], 4));
    assert Reachable(asleep);
  }
}

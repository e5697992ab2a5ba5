/** What every step of the timer system keeps, and what follows for every reachable state. */
module TimerSafety {
  import opened TimerSpec
  import opened TimerLists

  // ---------- The invariant ----------

  /** The list holds each armed timer once, and nothing else. */
  ghost predicate Listed(s: State) {
    NoDup(s.armed) && forall id :: id in s.armed <==> id in s.heap && s.heap[id].next != 0
  }

  /** The list is sorted and the cached wake-up time is not after any armed deadline. */
  ghost predicate Timely(s: State) {
    Sorted(s.heap, s.armed) && NoneBefore(s.heap, s.armed, s.nextTs)
  }

  /** rd_timer_call events of a timer, queued or executing. */
  ghost function Events(s: State, id: Id): nat {
    s.queued[id] + s.running[id]
  }

  /** rt_called counts exactly the events, and there are none for a timer that is not allocated. */
  ghost predicate Counted(s: State) {
    && (forall id :: id in s.heap ==> s.heap[id].called == Events(s, id))
    && (forall id :: id !in s.heap ==> Events(s, id) == 0)
  }

  /** A waiting thread that has not been signalled waits until the current wake-up time. */
  ghost predicate Asleep(s: State) {
    s.worker.Waiting? && !s.worker.signalled ==> s.worker.until == s.nextTs
  }

  /**
    What holds whatever the deadlines are; and, if every insertion so far has been faithful (w), that
    the list is sorted and in time.
   */
  ghost predicate Core(s: State, w: bool) {
    Listed(s) && (w ==> Timely(s)) && Counted(s) && Asleep(s) && !s.fault && s.freed !! s.heap.Keys
  }

  /** The stations of one timer. exempt: a recurring timer that has fired and is about to be restarted. */
  ghost predicate Station(t: Timer, owned: bool, exempt: bool) {
    && (owned ==> !t.removed && !t.atomic)
    && (t.removed ==> t.next == 0 && t.called > 0)
    && (!owned && !t.atomic ==> t.removed)
    && (t.atomic ==> !t.removed)
    && (t.atomic && t.kind == Once ==> (t.next != 0 && t.called == 0) || (t.next == 0 && t.called == 1))
    && (t.atomic && t.kind == Recurring ==> t.next != 0 || exempt)
  }

  ghost predicate Stations(s: State, exempt: set<Id>) {
    && s.owned <= s.heap.Keys
    && forall id :: id in s.heap ==> Station(s.heap[id], id in s.owned, id in exempt)
  }

  ghost predicate Inv(s: State, w: bool) {
    Core(s, w) && Stations(s, {})
  }

  // ---------- Stopping and starting ----------

  /** s with the fields of s' that the list operations change. */
  ghost predicate ListStep(s: State, s': State, id: Id, next: nat)
    requires id in s.heap
  {
    s' == s.(nextTs := s'.nextTs, worker := s'.worker, armed := s'.armed,
      heap := s.heap[id := s.heap[id].(next := next)])
  }

  lemma StopLists(s: State, id: Id, now: nat)
    requires Listed(s) && id in s.heap
    ensures ListStep(s, Stop0(s, id, now), id, 0) && Listed(Stop0(s, id, now))
    ensures Stop0(s, id, now).armed == Without(s.armed, id)
    ensures s.heap[id].next == 0 ==> Stop0(s, id, now) == s
  {
    WithoutMembers(s.armed, id);
    if s.heap[id].next == 0 {
      assert s.heap[id := s.heap[id].(next := 0)] == s.heap;
    }
  }

  lemma StopKeeps(s: State, id: Id, now: nat, w: bool)
    requires Core(s, w) && id in s.heap
    ensures Core(Stop0(s, id, now), w)
  {
    StopLists(s, id, now);
    if w {
      StopStaysTimely(s, id, now);
    }
    hide Timely, Listed, Without;
  }

  lemma StopStaysTimely(s: State, id: Id, now: nat)
    requires Listed(s) && Timely(s) && id in s.heap
    ensures Timely(Stop0(s, id, now))
  {
    var s' := Stop0(s, id, now);
    StopLists(s, id, now);
    WithoutMembers(s.armed, id);
    WithoutSorted(s.heap, s.armed, id);
    SortedFrame(s.heap, s'.heap, s'.armed);
    if s.armed != [] && s.armed[0] == id {
      assert s'.armed == s.armed[1..];
      if s.armed[1..] != [] {
        SortedByHead(s.heap, s.armed[1..]);
        assert s.armed[1..][0] in s.armed[1..];
      }
    }
  }

  lemma NoneDangling(s: State)
    requires Listed(s)
    ensures !Dangling(s)
  {
  }

  /** l is l0 with id put in somewhere. */
  ghost predicate Extends(l: seq<Id>, l0: seq<Id>, id: Id) {
    NoDup(l) && |l| == |l0| + 1 && forall x :: x in l <==> x in l0 || x == id
  }

  lemma ListedAfter(s: State, s': State, id: Id, d: nat)
    requires Listed(s) && id in s.heap && s.heap[id].next == 0 && 0 < d
    requires s'.heap == s.heap[id := s.heap[id].(next := d)] && Extends(s'.armed, s.armed, id)
    ensures Listed(s')
  {
  }

  lemma LinkExtends(s: State, id: Id, d: nat, update: bool, now: nat)
    requires NoDup(s.armed) && id in s.heap && id !in s.armed
    ensures ListStep(s, Link(s, id, d, update, now), id, d)
    ensures Extends(Link(s, id, d, update, now).armed, s.armed, id)
  {
    if d < s.nextTs {
      assert ([id] + s.armed)[1..] == s.armed;
    } else {
      InsertMembers(s.heap[id := s.heap[id].(next := d)], s.armed, id);
    }
    hide InsertSorted;
  }

  lemma LinkLists(s: State, id: Id, d: nat, update: bool, now: nat)
    requires Listed(s) && id in s.heap && s.heap[id].next == 0 && 0 < d
    ensures ListStep(s, Link(s, id, d, update, now), id, d) && Listed(Link(s, id, d, update, now))
    ensures Extends(Link(s, id, d, update, now).armed, s.armed, id)
  {
    LinkExtends(s, id, d, update, now);
    hide Link;
    ListedAfter(s, Link(s, id, d, update, now), id, d);
  }

  /** The timer goes to the head, or the comparisons on the way to its place are faithful. */
  ghost predicate LinkFaithful(s: State, id: Id, d: nat) {
    d < s.nextTs || Faithful(s.heap, s.armed, d)
  }

  ghost predicate StartFaithful(s: State, id: Id, ms: nat, c0: nat, c1: nat) {
    LinkFaithful(Stop0(s, id, c0), id, Deadline(c1, ms))
  }

  lemma LinkKeeps(s: State, id: Id, d: nat, update: bool, now: nat, w: bool)
    requires Core(s, w) && id in s.heap && s.heap[id].next == 0 && 0 < d
    requires w ==> LinkFaithful(s, id, d) && (update || s.nextTs <= d)
    ensures Core(Link(s, id, d, update, now), w)
    ensures !update ==> Link(s, id, d, update, now).nextTs == s.nextTs
  {
    var s' := Link(s, id, d, update, now);
    LinkLists(s, id, d, update, now);
    if w {
      LinkSorted(s, id, d, update, now);
    }
    hide Listed, Sorted, InsertSorted;
  }

  /** The list stays sorted if and only if the shortcut applies or the comparisons met are faithful. */
  lemma LinkSorted(s: State, id: Id, d: nat, update: bool, now: nat)
    requires Listed(s) && Timely(s) && id in s.heap && s.heap[id].next == 0 && 0 < d
    ensures Sorted(Link(s, id, d, update, now).heap, Link(s, id, d, update, now).armed) <==> LinkFaithful(s, id, d)
  {
    var s' := Link(s, id, d, update, now);
    LinkLists(s, id, d, update, now);
    SortedFrame(s.heap, s'.heap, s.armed);
    FaithfulFrame(s.heap, s'.heap, s.armed, d);
    if d < s.nextTs {
      assert s'.armed == [id] + s.armed && s'.armed[1..] == s.armed;
    } else {
      SortsIffFaithful(s'.heap, s.armed, id);
    }
    hide Faithful, Sorted;
  }

  lemma StartLists(s: State, id: Id, ms: nat, update: bool, c0: nat, c1: nat)
    requires Listed(s) && id in s.heap && 0 < c1
    ensures ListStep(s, Start0(s, id, ms, update, c0, c1), id, Deadline(c1, ms)) &&
      Listed(Start0(s, id, ms, update, c0, c1))
    ensures Extends(Start0(s, id, ms, update, c0, c1).armed, Without(s.armed, id), id)
  {
    hide Listed, Link, Stop0, Dangling, Without, Extends;
    NoneDangling(s);
    StopLists(s, id, c0);
    LinkLists(Stop0(s, id, c0), id, Deadline(c1, ms), update, c1);
    var h := s.heap[id := s.heap[id].(next := 0)];
    assert h[id := h[id].(next := Deadline(c1, ms))] == s.heap[id := s.heap[id].(next := Deadline(c1, ms))];
  }

  lemma StartKeeps(s: State, id: Id, ms: nat, update: bool, c0: nat, c1: nat, w: bool)
    requires Core(s, w) && id in s.heap && 0 < c1
    requires w ==>
      StartFaithful(s, id, ms, c0, c1) && (update || (s.heap[id].next == 0 && s.nextTs <= Deadline(c1, ms)))
    ensures Core(Start0(s, id, ms, update, c0, c1), w)
    ensures !update && s.heap[id].next == 0 ==> Start0(s, id, ms, update, c0, c1).nextTs == s.nextTs
  {
    NoneDangling(s);
    StopLists(s, id, c0);
    StopKeeps(s, id, c0, w);
    hide Core, Listed, Link, Stop0, Dangling, LinkFaithful;
    LinkKeeps(Stop0(s, id, c0), id, Deadline(c1, ms), update, c1, w);
  }

  /**
    Where the shortcut applies, the sorted insertion would also put the timer first, if and only if the
    first deadline on the list is at most 2^31 microseconds later, modulo 2^32.
   */
  lemma ShortcutIsSortedInsertion(s: State, id: Id, d: nat)
    requires Timely(s) && id !in s.armed && d < s.nextTs
    ensures InsertSorted(s.heap[id := Timer(Once, 0, d, 0, false, false)], s.armed, id) == [id] + s.armed
            <==> s.armed == [] || (Next(s.heap, s.armed[0]) - d) % TWO32 <= TWO31
  {
    if s.armed != [] {
      var h, first := s.heap[id := Timer(Once, 0, d, 0, false, false)], s.armed[0];
      assert first in s.armed;
      CmpSign(d, Next(s.heap, first));
      if Cmp(d, Next(s.heap, first)) > 0 {
        assert InsertSorted(h, s.armed, id)[0] == first != ([id] + s.armed)[0];
      }
    }
  }

  lemma CmpSign(a: nat, b: nat)
    ensures Cmp(a, b) <= 0 <==> (b - a) % TWO32 <= TWO31
  {
  }

  // ---------- Destroying ----------

  lemma DestroyForm(s: State, id: Id, now: nat)
    requires Listed(s) && id in s.heap
    ensures var s', s1 := Destroy0(s, id, now), Stop0(s, id, now);
      if s.heap[id].called == 0 then s' == s1.(heap := s.heap - {id}, freed := s.freed + {id})
      else s' == s1.(heap := s.heap[id := s.heap[id].(next := 0, removed := true)])
  {
    NoneDangling(s);
    StopLists(s, id, now);
    hide Listed, Stop0, Dangling;
    var s1 := Stop0(s, id, now);
    assert s1.heap - {id} == s.heap - {id};
    assert s1.heap[id := s1.heap[id].(removed := true)] == s.heap[id := s.heap[id].(next := 0, removed := true)];
  }

  /** Changing neither deadline nor event count of a timer keeps the core. */
  lemma RetouchKeeps(s: State, id: Id, t: Timer, w: bool)
    requires Core(s, w) && id in s.heap && t.next == s.heap[id].next && t.called == s.heap[id].called
    ensures Core(s.(heap := s.heap[id := t]), w)
  {
    if w {
      SortedFrame(s.heap, s.heap[id := t], s.armed);
    }
    hide Sorted, NoDup;
  }

  /** Freeing a timer that is off the list and has no event keeps the core. */
  lemma FreeKeeps(s: State, id: Id, w: bool)
    requires Core(s, w) && id in s.heap && s.heap[id].next == 0 && s.heap[id].called == 0
    ensures Core(s.(heap := s.heap - {id}, freed := s.freed + {id}), w)
  {
    if w {
      SortedFrame(s.heap, s.heap - {id}, s.armed);
    }
    hide Sorted, NoDup;
  }

  lemma DestroyKeeps(s: State, id: Id, now: nat, w: bool)
    requires Core(s, w) && id in s.heap
    ensures Core(Destroy0(s, id, now), w)
    ensures Destroy0(s, id, now).owned == s.owned
    ensures s.heap[id].called == 0 ==> Destroy0(s, id, now).heap == s.heap - {id}
    ensures s.heap[id].called != 0 ==>
      Destroy0(s, id, now).heap == s.heap[id := s.heap[id].(next := 0, removed := true)]
  {
    hide Stop0, Destroy0, Without, Listed, Timely, Counted, Asleep;
    var s1 := Stop0(s, id, now);
    DestroyForm(s, id, now);
    StopLists(s, id, now);
    StopKeeps(s, id, now, w);
    if s.heap[id].called == 0 {
      FreeKeeps(s1, id, w);
      assert s1.heap - {id} == s.heap - {id};
    } else {
      RetouchKeeps(s1, id, s1.heap[id].(removed := true), w);
      assert s1.heap[id := s1.heap[id].(removed := true)] == s.heap[id := s.heap[id].(next := 0, removed := true)];
    }
  }

  // ---------- The scan ----------

  lemma FireHeadKeeps(s: State, exempt: set<Id>, w: bool)
    requires Core(s, w) && Stations(s, exempt) && s.armed != []
    ensures s.armed[0] in s.heap && Core(FireHead(s), w) && Stations(FireHead(s), exempt + {s.armed[0]})
    ensures FireHead(s).heap[s.armed[0]].next == 0
  {
    var id := s.armed[0];
    assert id in s.armed;
    var s' := FireHead(s);
    if w {
      SortedFrame(s.heap, s'.heap, s'.armed);
    }
  }

  /**
    The fired timers: expired, distinct, off the list, and each with one more event; all expired
    ones if the list is in order.
   */
  ghost predicate Fired(s: State, s': State, now: nat, callouts: seq<Id>, w: bool) {
    && NoDup(callouts)
    && s'.heap.Keys == s.heap.Keys && s' == s.(armed := s'.armed, heap := s'.heap, queued := s'.queued)
    && (forall id :: id in callouts ==> id in s.armed && Next(s.heap, id) <= now)
    && (forall id :: id in s'.armed <==> id in s.armed && id !in callouts)
    && (w ==> forall id :: id in s'.armed ==> Next(s.heap, id) > now)
    && (forall id :: id in s.heap ==>
          s'.heap[id] == if id in callouts then s.heap[id].(next := 0, called := s.heap[id].called + 1) else s.heap[id])
    && (forall id :: s'.queued[id] == s.queued[id] + if id in callouts then 1 else 0)
  }

  lemma FiredNone(s: State, now: nat, w: bool)
    requires Core(s, w) && (s.armed == [] || Next(s.heap, s.armed[0]) > now)
    ensures Fired(s, s, now, [], w)
  {
    if w && s.armed != [] {
      SortedByHead(s.heap, s.armed);
    }
    hide Sorted, NoDup;
  }

  lemma FiredMore(s: State, s': State, now: nat, rest: seq<Id>, w: bool)
    requires Core(s, w) && s.armed != [] && s.armed[0] in s.heap && Next(s.heap, s.armed[0]) <= now
    requires Fired(FireHead(s), s', now, rest, w)
    ensures Fired(s, s', now, [s.armed[0]] + rest, w)
  {
    var id, s1 := s.armed[0], FireHead(s);
    var callouts := [id] + rest;
    assert callouts[0] == id && callouts[1..] == rest;
    assert id !in s1.armed && forall x :: x in s.armed <==> x == id || x in s1.armed;
    assert forall x :: x in callouts <==> x == id || x in rest;
    assert id !in rest;
    hide Core, Listed, Sorted, Next;
  }

  /**
    The scan takes off only expired timers, and all of them if the list is in order, although it stops at
    the first that is not.
   */
  lemma {:induction false} FireIsExact(s: State, now: nat, exempt: set<Id>, w: bool)
    requires Core(s, w) && Stations(s, exempt)
    ensures Core(Fire(s, now).0, w) && Stations(Fire(s, now).0, exempt + set id | id in Fire(s, now).1)
    ensures Fired(s, Fire(s, now).0, now, Fire(s, now).1, w)
    decreases |s.armed|
  {
    hide Core, Stations, Fired;
    var (s', callouts) := Fire(s, now);
    HeadInHeap(s, w);
    if s.armed == [] || s.heap[s.armed[0]].next > now {
      assert exempt + (set id | id in callouts) == exempt;
      FiredNone(s, now, w);
    } else {
      FireHeadKeeps(s, exempt, w);
      var id, s1 := s.armed[0], FireHead(s);
      var rest := Fire(s1, now).1;
      assert callouts == [id] + rest && s' == Fire(s1, now).0;
      FireIsExact(s1, now, exempt + {id}, w);
      FiredMore(s, s', now, rest, w);
      assert exempt + {id} + (set x | x in rest) == exempt + set x | x in callouts;
    }
  }

  lemma HeadInHeap(s: State, w: bool)
    requires Core(s, w)
    ensures s.armed != [] ==> s.armed[0] in s.heap
  {
    if s.armed != [] {
      assert s.armed[0] in s.armed;
    }
  }

  /** The fired timers are allocated, distinct and off the list, and the clock readings come after now. */
  ghost predicate Restartable(s: State, callouts: seq<Id>, ticks: seq<nat>, now: nat) {
    && NoDup(callouts) && |callouts| <= |ticks| && 0 < now
    && (forall id :: id in callouts ==> id in s.heap && s.heap[id].next == 0 && !s.heap[id].removed)
    && (forall k :: 0 <= k < |ticks| ==> now <= ticks[k])
  }

  /** The state after one turn of the restart loop. */
  ghost function RestartOne(s: State, id: Id, tick: nat): State {
    if id in s.heap && s.heap[id].kind == Recurring then Start0(s, id, s.heap[id].interval, false, tick, tick) else s
  }

  lemma RestartOneLists(s: State, callouts: seq<Id>, ticks: seq<nat>, now: nat)
    requires Listed(s) && Restartable(s, callouts, ticks, now) && callouts != []
    ensures var id, s1 := callouts[0], RestartOne(s, callouts[0], ticks[0]);
      && Listed(s1) && Restartable(s1, callouts[1..], ticks[1..], now)
      && s1 == s.(armed := s1.armed, heap := s1.heap) && s1.heap.Keys == s.heap.Keys
      && (forall x :: x in s.heap && x != id ==> s1.heap[x] == s.heap[x])
      && s1.heap[id] ==
        if s.heap[id].kind == Recurring then s.heap[id].(next := Deadline(ticks[0], s.heap[id].interval))
        else s.heap[id]
  {
    var id, tick := callouts[0], ticks[0];
    assert id in callouts;
    if s.heap[id].kind == Recurring {
      StartLists(s, id, s.heap[id].interval, false, tick, tick);
      StopLists(s, id, tick);
      NoneDangling(s);
      assert Start0(s, id, s.heap[id].interval, false, tick, tick) ==
        Link(s, id, Deadline(tick, s.heap[id].interval), false, tick);
    }
    hide Listed, Start0, Stop0, Without, Extends, Deadline, InsertSorted, Dangling;
  }

  /** Restarting arms the fired recurring timers anew and leaves every other timer as it is. */
  lemma {:induction false} RestartEffect(s: State, callouts: seq<Id>, ticks: seq<nat>, now: nat)
    requires Listed(s) && Restartable(s, callouts, ticks, now)
    ensures var r := Restart(s, callouts, ticks);
      && Listed(r) && r == s.(armed := r.armed, heap := r.heap) && r.heap.Keys == s.heap.Keys
      && (forall x :: x in s.heap && x !in callouts ==> r.heap[x] == s.heap[x])
      && (forall k :: 0 <= k < |callouts| ==>
            && callouts[k] in s.heap
            && r.heap[callouts[k]] ==
               if s.heap[callouts[k]].kind == Recurring
               then s.heap[callouts[k]].(next := Deadline(ticks[k], s.heap[callouts[k]].interval))
               else s.heap[callouts[k]])
    decreases |callouts|
  {
    if callouts != [] {
      var s1 := RestartOne(s, callouts[0], ticks[0]);
      RestartOneLists(s, callouts, ticks, now);
      assert Restart(s, callouts, ticks) == Restart(s1, callouts[1..], ticks[1..]);
      hide Listed, Start0, Restart, RestartOne, Deadline;
      RestartEffect(s1, callouts[1..], ticks[1..], now);
      forall k | 0 < k < |callouts|
        ensures callouts[k] == callouts[1..][k - 1] && ticks[k] == ticks[1..][k - 1] && callouts[k] != callouts[0]
      {
        assert callouts[1..][k - 1] in callouts[1..];
      }
    }
  }

  /** Each restart puts its timer where it belongs. */
  ghost predicate RestartFaithful(s: State, callouts: seq<Id>, ticks: seq<nat>)
    requires |callouts| <= |ticks|
    decreases |callouts|
  {
    callouts == [] ||
    var id := callouts[0];
    && (id in s.heap && s.heap[id].kind == Recurring ==> StartFaithful(s, id, s.heap[id].interval, ticks[0], ticks[0]))
    && RestartFaithful(RestartOne(s, id, ticks[0]), callouts[1..], ticks[1..])
  }

  /** Every insertion of the step is faithful. */
  ghost predicate StepFaithful(s: State, step: Step) {
    match step
    case DoAdd(id, kind, ms, c0, c1) =>
      StartFaithful(s.(heap := s.heap[id := Timer(kind, ms, 0, 0, true, false)]), id, ms, c0, c1)
    case DoStart(id, ms, c0, c1) =>
      id in s.heap ==> StartFaithful(s.(heap := s.heap[id := s.heap[id].(interval := ms)]), id, ms, c0, c1)
    case DoScan(now, ticks, _) =>
      |s.armed| <= |ticks| ==> (FireShrinks(s, now); RestartFaithful(Fire(s, now).0, Fire(s, now).1, ticks))
    case _ => true
  }

  lemma {:induction false} RestartKeeps(s: State, callouts: seq<Id>, ticks: seq<nat>, now: nat, exempt: set<Id>,
      w: bool)
    requires Core(s, w) && Restartable(s, callouts, ticks, now) && (w && callouts != [] ==> s.nextTs <= now)
    requires Stations(s, exempt + set id | id in callouts)
    requires w ==> RestartFaithful(s, callouts, ticks)
    ensures Core(Restart(s, callouts, ticks), w) && Stations(Restart(s, callouts, ticks), exempt)
    decreases |callouts|
  {
    hide Core, Start0, Deadline, StartFaithful;
    if callouts == [] {
      assert exempt + (set id | id in callouts) == exempt;
    } else {
      var id, tick, s1 := callouts[0], ticks[0], RestartOne(s, callouts[0], ticks[0]);
      CoreLists(s, w);
      RestartOneLists(s, callouts, ticks, now);
      assert Restart(s, callouts, ticks) == Restart(s1, callouts[1..], ticks[1..]);
      assert id in callouts && now <= Deadline(tick, s.heap[id].interval) by {
        DeadlineAfter(tick, s.heap[id].interval);
      }
      if s.heap[id].kind == Recurring {
        StartKeeps(s, id, s.heap[id].interval, false, tick, tick, w);
      }
      assert Stations(s1, exempt + set x | x in callouts[1..]) by {
        DeadlineAfter(tick, s.heap[id].interval);
        assert forall x :: x in callouts <==> x == id || x in callouts[1..];
      }
      RestartKeeps(s1, callouts[1..], ticks[1..], now, exempt, w);
    }
  }

  lemma CoreLists(s: State, w: bool)
    requires Core(s, w)
    ensures Listed(s)
  {
  }

  lemma DeadlineAfter(now: nat, ms: nat)
    ensures now <= Deadline(now, ms)
  {
  }

  /** The timer thread waits, unsignalled, for the first deadline on the list or for an hour. */
  predicate WaitsForFirst(s: State, c: nat) {
    s.worker == Waiting(if s.armed == [] then c + 3_600_000_000 else Next(s.heap, s.armed[0]), false)
  }

  /** One round of the timer thread: everything due is fired, and afterwards it waits for the first deadline. */
  lemma ScanKeeps(s: State, now: nat, ticks: seq<nat>, c: nat, w: bool)
    requires Inv(s, w) && Enabled(s, DoScan(now, ticks, c)) && (w ==> StepFaithful(s, DoScan(now, ticks, c)))
    ensures Inv(Scan(s, now, ticks, c), w)
    ensures WaitsForFirst(Scan(s, now, ticks, c), c)
  {
    FireShrinks(s, now);
    var (s1, callouts) := Fire(s, now);
    var s2 := Restart(s1, callouts, ticks);
    FireIsExact(s, now, {}, w);
    NoneDangling(s);
    FiredRestartable(s, s1, callouts, ticks, now, w);
    assert Scan(s, now, ticks, c) ==
      NextUpdate(s2, s2.armed, c).(worker := Waiting(NextUpdate(s2, s2.armed, c).nextTs, false));
    hide Fire, Restart, Fired, Core, Stations, RestartFaithful;
    RestartKeeps(s1, callouts, ticks, now, {}, w);
    SleepKeeps(s2, c, w);
  }

  lemma FiredRestartable(s: State, s1: State, callouts: seq<Id>, ticks: seq<nat>, now: nat, w: bool)
    requires Inv(s, w) && Fired(s, s1, now, callouts, w) && |callouts| <= |ticks| && 0 < now
    requires forall k :: 0 <= k < |ticks| ==> now <= ticks[k]
    ensures Restartable(s1, callouts, ticks, now)
    ensures w && callouts != [] ==> s1.nextTs <= now
  {
    if callouts != [] {
      assert callouts[0] in callouts;
    }
    hide NoDup, Sorted;
  }

  lemma SleepKeeps(s: State, c: nat, w: bool)
    requires Core(s, w) && Stations(s, {})
    ensures var s' := NextUpdate(s, s.armed, c); Inv(s'.(worker := Waiting(s'.nextTs, false)), w)
  {
    if w && s.armed != [] {
      SortedByHead(s.heap, s.armed);
    }
    hide Sorted, NoDup;
  }

  // ---------- Every step keeps the invariant ----------

  lemma CreateKeeps(s: State, id: Id, t: Timer, w: bool)
    requires Core(s, w) && id !in s.heap && id !in s.freed && t.next == 0 && t.called == 0
    ensures Core(s.(heap := s.heap[id := t]), w)
  {
    if w {
      SortedFrame(s.heap, s.heap[id := t], s.armed);
    }
    hide Sorted, NoDup;
  }

  lemma OwnedKeeps(s: State, owned: set<Id>, w: bool)
    requires Core(s, w)
    ensures Core(s.(owned := owned), w)
  {
    hide Sorted, NoDup;
  }

  lemma StartStepKeeps(s: State, id: Id, ms: nat, c0: nat, c1: nat, w: bool)
    requires Core(s, w) && id in s.heap && 0 < c1 && (w ==> StepFaithful(s, DoStart(id, ms, c0, c1)))
    ensures Core(Start(s, id, ms, c0, c1), w) && Start(s, id, ms, c0, c1).owned == s.owned
    ensures Start(s, id, ms, c0, c1).heap == s.heap[id := s.heap[id].(interval := ms, next := Deadline(c1, ms))]
  {
    hide Core, Listed, Start0, StartFaithful;
    var s1 := s.(heap := s.heap[id := s.heap[id].(interval := ms)]);
    RetouchKeeps(s, id, s.heap[id].(interval := ms), w);
    CoreLists(s1, w);
    StartLists(s1, id, ms, true, c0, c1);
    StartKeeps(s1, id, ms, true, c0, c1, w);
    assert s1.heap[id := s1.heap[id].(next := Deadline(c1, ms))] ==
      s.heap[id := s.heap[id].(interval := ms, next := Deadline(c1, ms))];
  }

  lemma AddKeeps(s: State, id: Id, kind: Kind, ms: nat, c0: nat, c1: nat, w: bool)
    requires Inv(s, w) && id !in s.heap && id !in s.freed && 0 < c1 &&
      (w ==> StepFaithful(s, DoAdd(id, kind, ms, c0, c1)))
    ensures Inv(AddAtomic(s, id, kind, ms, c0, c1), w)
  {
    var s1 := s.(heap := s.heap[id := Timer(kind, 0, 0, 0, true, false)]);
    CreateKeeps(s, id, Timer(kind, 0, 0, 0, true, false), w);
    assert s1.(heap := s1.heap[id := s1.heap[id].(interval := ms)]) ==
      s.(heap := s.heap[id := Timer(kind, ms, 0, 0, true, false)]);
    hide Core, StartFaithful, Start, Deadline;
    StartStepKeeps(s1, id, ms, c0, c1, w);
    DeadlineAfter(c1, ms);
  }

  lemma DestroyStepKeeps(s: State, id: Id, now: nat, w: bool)
    requires Inv(s, w) && id in s.owned
    ensures Inv(Destroy(s, id, now), w)
  {
    var s1 := s.(owned := s.owned - {id});
    OwnedKeeps(s, s.owned - {id}, w);
    CountOf(s, id, w);
    hide Core, Destroy0;
    DestroyKeeps(s1, id, now, w);
  }

  lemma CountOf(s: State, id: Id, w: bool)
    requires Core(s, w)
    ensures id in s.heap ==> s.heap[id].called == Events(s, id)
    ensures Events(s, id) > 0 ==> id in s.heap
  {
  }

  lemma BeginKeeps(s: State, id: Id, w: bool)
    requires Inv(s, w) && id in s.queued
    ensures Inv(Begin(s, id), w)
  {
    CountOf(s, id, w);
    var s' := Begin(s, id);
    assert forall x :: Events(s', x) == Events(s, x);
    hide Sorted, NoDup, Events;
  }

  /** The event has left its callback and is not counted any more. */
  ghost function Ended(s: State, id: Id): State
    requires id in s.heap
  {
    s.(running := s.running - multiset{id}, heap := s.heap[id := s.heap[id].(called := s.heap[id].called - 1)])
  }

  lemma EndedKeeps(s: State, id: Id, w: bool)
    requires Core(s, w) && id in s.running
    ensures id in s.heap && Core(Ended(s, id), w)
  {
    CountOf(s, id, w);
    if w {
      SortedFrame(s.heap, s.heap[id := s.heap[id].(called := s.heap[id].called - 1)], s.armed);
    }
    hide Sorted, NoDup;
  }

  lemma EndForm(s: State, id: Id, now: nat, w: bool)
    requires Inv(s, w) && id in s.running
    ensures id in s.heap && Core(Ended(s, id), w)
    ensures End(s, id, now) ==
      if (s.heap[id].removed && s.heap[id].called == 1) || (s.heap[id].kind == Once && s.heap[id].atomic)
                               then Destroy0(Ended(s, id), id, now) else Ended(s, id)
  {
    hide Core, Destroy0, Stations;
    EndedKeeps(s, id, w);
  }

  lemma EndKeeps(s: State, id: Id, now: nat, w: bool)
    requires Inv(s, w) && id in s.running
    ensures Inv(End(s, id, now), w)
    ensures s.heap[id].removed && s.heap[id].called == 1 ==> id !in End(s, id, now).heap
    ensures s.heap[id].kind == Once && s.heap[id].atomic ==> id !in End(s, id, now).heap
  {
    hide Core, Destroy0, End;
    CountOf(s, id, w);
    EndForm(s, id, now, w);
    var s2 := Ended(s, id);
    if (s.heap[id].removed && s.heap[id].called == 1) || (s.heap[id].kind == Once && s.heap[id].atomic) {
      DestroyKeeps(s2, id, now, w);
    }
  }

  /** Every enabled step keeps the invariant: the part about order and time if its insertions are faithful. */
  lemma StepKeeps(s: State, step: Step, w: bool)
    requires Inv(s, w) && Enabled(s, step) && (w ==> StepFaithful(s, step))
    ensures Inv(Do(s, step), w)
  {
    hide Core, StepFaithful, Stop0, Scan, Begin, End, Destroy, AddAtomic;
    match step
    case DoCreate(id, kind) =>
      CreateKeeps(s, id, Timer(kind, 0, 0, 0, false, false), w);
      OwnedKeeps(s.(heap := s.heap[id := Timer(kind, 0, 0, 0, false, false)]), s.owned + {id}, w);
    case DoAdd(id, kind, ms, c0, c1) => AddKeeps(s, id, kind, ms, c0, c1, w);
    case DoStart(id, ms, c0, c1) =>
      hide Start, Deadline;
      StartStepKeeps(s, id, ms, c0, c1, w);
    case DoStop(id, c0) =>
      CoreLists(s, w);
      StopLists(s, id, c0);
      StopKeeps(s, id, c0, w);
    case DoDestroy(id, c0) => DestroyStepKeeps(s, id, c0, w);
    case DoBegin(id) => BeginKeeps(s, id, w);
    case DoEnd(id, c0) => EndKeeps(s, id, c0, w);
    case Wake => WakeKeeps(s, w);
    case DoScan(now, ticks, c) => ScanKeeps(s, now, ticks, c, w);
  }

  lemma WakeKeeps(s: State, w: bool)
    requires Core(s, w)
    ensures Core(s.(worker := Running), w)
  {
    hide Sorted, NoDup;
  }

  // ---------- What holds in every reachable state ----------

  lemma InitialInv(w: bool)
    ensures Inv(INITIAL, w)
  {
  }

  /** Every insertion before state k was faithful. */
  ghost predicate AllFaithful(states: seq<State>, steps: seq<Step>, k: nat) {
    forall j :: 0 <= j < k && j < |states| && j < |steps| ==> StepFaithful(states[j], steps[j])
  }

  lemma {:induction false} ReachableInv(states: seq<State>, steps: seq<Step>, k: nat, w: bool)
    requires IsRun(states, steps) && k < |states| && (w ==> AllFaithful(states, steps, k))
    ensures Inv(states[k], w)
  {
    hide Inv, Do, Enabled, StepFaithful;
    if k == 0 {
      InitialInv(w);
    } else {
      ReachableInv(states, steps, k - 1, w);
      assert Follows(states[k - 1], steps[k - 1], states[k - 1 + 1]);
      StepKeeps(states[k - 1], steps[k - 1], w);
    }
  }

  /** No run reads or frees a freed timer or fails rd_timer_call's assertion, and rt_called counts the events. */
  lemma NoUseAfterFree(states: seq<State>, steps: seq<Step>, k: nat, id: Id)
    requires IsRun(states, steps) && k < |states|
    ensures !states[k].fault
    ensures id in states[k].heap ==> states[k].heap[id].called == Events(states[k], id)
    ensures id in states[k].freed ==>
              id !in states[k].heap && id !in states[k].armed && id !in states[k].owned && Events(states[k], id) == 0
  {
    ReachableInv(states, steps, k, false);
    hide Sorted, NoDup;
  }

  lemma ScanEffect(s: State, now: nat, ticks: seq<nat>, c: nat, w: bool)
    requires Inv(s, w) && Enabled(s, DoScan(now, ticks, c))
    ensures var (s1, callouts), s' := Fire(s, now), Scan(s, now, ticks, c);
      && Fired(s, s1, now, callouts, w) && Restartable(s1, callouts, ticks, now)
      && s' == Restart(s1, callouts, ticks).(nextTs := s'.nextTs, worker := s'.worker)
  {
    FireShrinks(s, now);
    FireIsExact(s, now, {}, w);
    NoneDangling(s);
    FiredRestartable(s, Fire(s, now).0, Fire(s, now).1, ticks, now, w);
    hide Fire, Restart, Fired, Core, Stations, Restartable;
  }

  lemma FreedGrows(s: State, step: Step)
    requires Inv(s, false) && Enabled(s, step)
    ensures s.freed <= Do(s, step).freed
  {
    if step.DoScan? {
      var (s1, callouts) := Fire(s, step.now);
      ScanEffect(s, step.now, step.ticks, step.c, false);
      FireIsExact(s, step.now, {}, false);
      hide Restart, Fire, Scan, Restartable;
      CoreLists(s1, false);
      RestartEffect(s1, callouts, step.ticks, step.now);
    }
  }

  /** Once freed, a timer stays freed: it cannot be freed a second time. */
  lemma {:induction false} FreedStaysFreed(states: seq<State>, steps: seq<Step>, j: nat, k: nat)
    requires IsRun(states, steps) && j <= k < |states|
    ensures states[j].freed <= states[k].freed
    decreases k
  {
    hide Inv, Do, Enabled;
    if j < k {
      FreedStaysFreed(states, steps, j, k - 1);
      assert Follows(states[k - 1], steps[k - 1], states[k - 1 + 1]);
      ReachableInv(states, steps, k - 1, false);
      FreedGrows(states[k - 1], steps[k - 1]);
    }
  }

  /** While the thread waits unsignalled, its timeout is not after any armed deadline. */
  lemma NoLostWakeup(states: seq<State>, steps: seq<Step>, k: nat, id: Id)
    requires IsRun(states, steps) && k < |states| && AllFaithful(states, steps, k)
    requires states[k].worker.Waiting? && !states[k].worker.signalled && id in states[k].armed
    ensures id in states[k].heap && states[k].worker.until <= Next(states[k].heap, id)
  {
    ReachableInv(states, steps, k, true);
    hide Sorted, NoDup;
  }

  /** Every timer due at now gets exactly one more event from a scan, and no other timer gets one. */
  lemma ScanFiresWhatIsDue(s: State, now: nat, ticks: seq<nat>, c: nat, id: Id)
    requires Inv(s, true) && Enabled(s, DoScan(now, ticks, c)) && id in s.heap
    ensures var s' := Scan(s, now, ticks, c); var due := s.heap[id].next != 0 && s.heap[id].next <= now;
      && id in s'.heap
      && s'.queued[id] == s.queued[id] + (if due then 1 else 0)
      && s'.heap[id].called == s.heap[id].called + (if due then 1 else 0)
      && (!due ==> s'.heap[id] == s.heap[id])
      && (due && s.heap[id].kind == Once ==> s'.heap[id].next == 0)
      && (due && s.heap[id].kind == Recurring ==> s'.heap[id].next >= Deadline(now, s.heap[id].interval))
  {
    var (s1, callouts) := Fire(s, now);
    ScanEffect(s, now, ticks, c, true);
    FireIsExact(s, now, {}, true);
    CoreLists(s1, true);
    assert id in s.armed <==> s.heap[id].next != 0 by { CoreLists(s, true); }
    hide Core, Restart, Fire, Scan, Restartable, Stations;
    RestartEffect(s1, callouts, ticks, now);
    if id in callouts {
      var k :| 0 <= k < |callouts| && callouts[k] == id;
      TickAfter(s1, callouts, ticks, now, k);
      DeadlineMonotone(now, ticks[k], s.heap[id].interval);
    }
  }

  lemma TickAfter(s: State, callouts: seq<Id>, ticks: seq<nat>, now: nat, k: nat)
    requires Restartable(s, callouts, ticks, now) && k < |ticks|
    ensures now <= ticks[k]
  {
  }

  lemma DeadlineMonotone(a: nat, b: nat, ms: nat)
    requires a <= b
    ensures Deadline(a, ms) <= Deadline(b, ms)
  {
  }

  /** Nothing leaks: once no event is left, only timers the application owns or armed automatic ones are allocated. */
  lemma NoLeak(states: seq<State>, steps: seq<Step>, k: nat, id: Id)
    requires IsRun(states, steps) && k < |states| && id in states[k].heap && Events(states[k], id) == 0
    ensures id in states[k].owned || (states[k].heap[id].atomic && id in states[k].armed)
  {
    ReachableInv(states, steps, k, false);
    hide Sorted, NoDup;
  }

  /** The interval survives the 32-bit product if and only if it is at most 4294967 milliseconds. */
  lemma DeadlineExactIff(now: nat, ms: nat)
    ensures Deadline(now, ms) == now + ms * 1000 <==> ms <= 4294967
  {
  }
}

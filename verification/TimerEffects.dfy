/**
  What each step of the timer system does to the timers, the list, the cached wake-up time, the events
  and the timer thread, said of the states before and after it.
 */
module TimerEffects {
  import opened TimerSpec
  import opened TimerLists
  import opened TimerSafety

  // ---------- 32-bit arithmetic ----------

  /** The interval in microseconds is cut to 32 bits, whatever it is. */
  lemma DeadlineWraps(now: nat, ms: nat) returns (k: nat)
    ensures 0 <= Deadline(now, ms) - now < 0x1_0000_0000
    ensures ms * 1000 == Deadline(now, ms) - now + k * 0x1_0000_0000
  {
    k := ms * 1000 / 0x1_0000_0000;
  }

  /** rd_timer_cmp is the difference of the deadlines cut to a signed 32-bit integer. */
  lemma CmpWraps(a: nat, b: nat) returns (k: int)
    ensures -0x8000_0000 <= Cmp(a, b) <= 0x7fff_ffff
    ensures a - b == Cmp(a, b) + k * 0x1_0000_0000
  {
    k := (a - b + 0x8000_0000) / 0x1_0000_0000;
  }

  // ---------- The place of a timer ----------

  /** With faithful comparisons a timer goes behind those due earlier and before all others. */
  lemma {:induction false} SortedPlace(h: map<Id, Timer>, l: seq<Id>, id: Id) returns (k: nat)
    requires Sorted(h, l) && Faithful(h, l, Next(h, id))
    ensures k <= |l| && InsertSorted(h, l, id) == l[..k] + [id] + l[k..]
    ensures forall x :: x in l[..k] ==> Next(h, x) < Next(h, id)
    ensures forall x :: x in l[k..] ==> Next(h, id) <= Next(h, x)
  {
    if l == [] || Next(h, id) <= Next(h, l[0]) {
      k := 0;
      if l != [] {
        SortedByHead(h, l);
      }
    } else {
      var j := SortedPlace(h, l[1..], id);
      k := j + 1;
      assert l[..k] == [l[0]] + l[1..][..j] && l[k..] == l[1..][j..];
    }
  }

  // ---------- The application's steps ----------

  /** Whether stopping the timer makes the thread look for another wake-up time. */
  predicate StopUpdates(s: State, id: Id) {
    id in s.heap && s.heap[id].next != 0 && s.heap[id].called == 0 && s.armed != [] && s.armed[0] == id
  }

  /** The cached wake-up time then: the deadline that follows, or an hour from now. */
  function CachedAfterStop(s: State, id: Id, now: nat): nat {
    if !StopUpdates(s, id) then s.nextTs
    else if |s.armed| > 1 then Next(s.heap, s.armed[1])
    else now + 3_600_000_000
  }

  /** A thread that waits is woken. */
  function Signalled(w: Worker, signal: bool): Worker {
    if signal && w.Waiting? then Waiting(w.until, true) else w
  }

  /** Stopping disarms this timer only; the thread is woken if and only if the head goes that has no event. */
  lemma StopEffect(s: State, id: Id, now: nat)
    requires Core(s, false) && id in s.heap
    ensures var s' := Stop0(s, id, now);
      && s' == s.(armed := s'.armed, heap := s.heap[id := s.heap[id].(next := 0)],
                  nextTs := CachedAfterStop(s, id, now), worker := Signalled(s.worker, StopUpdates(s, id)))
      && NoDup(s'.armed) && (forall x :: x in s'.armed <==> x in s.armed && x != id)
  {
    CoreLists(s, false);
    NoneDangling(s);
    StopLists(s, id, now);
    WithoutMembers(s.armed, id);
    hide Listed, Without, Dangling;
    if StopUpdates(s, id) {
      assert |s.armed| > 1 ==> s.armed[1..][0] == s.armed[1];
    }
  }

  /**
    Starting gives this timer its interval and deadline and arms it. It becomes the first, and the
    thread is woken for it, if it is due before the wake-up time that stopping it has left.
   */
  lemma StartEffect(s: State, id: Id, ms: nat, c0: nat, c1: nat)
    requires Core(s, false) && id in s.heap && 0 < c1
    ensures var s', d, cached := Start(s, id, ms, c0, c1), Deadline(c1, ms), CachedAfterStop(s, id, c0);
      && s' == s.(armed := s'.armed, heap := s.heap[id := s.heap[id].(interval := ms, next := d)],
                  nextTs := if d < cached then d else cached,
                  worker := Signalled(s.worker, StopUpdates(s, id) || d < cached))
      && NoDup(s'.armed) && (forall x :: x in s'.armed <==> x in s.armed || x == id)
      && (d < cached ==> s'.armed[0] == id)
  {
    hide Core, Listed, Start0, Without, Extends;
    var t := s.heap[id].(interval := ms);
    var s1 := s.(heap := s.heap[id := t]);
    RetouchKeeps(s, id, t, false);
    StopEffect(s1, id, c0);
    CoreLists(s1, false);
    StartLists(s1, id, ms, true, c0, c1);
    assert s1.heap[id := s1.heap[id].(next := Deadline(c1, ms))] ==
      s.heap[id := s.heap[id].(interval := ms, next := Deadline(c1, ms))];
    StartCaches(s1, id, ms, c0, c1);
    SameCache(s, s1, id, t, c0);
  }

  lemma SameCache(s: State, s1: State, id: Id, t: Timer, now: nat)
    requires id in s.heap && s1 == s.(heap := s.heap[id := t])
    requires t.next == s.heap[id].next && t.called == s.heap[id].called
    ensures StopUpdates(s1, id) == StopUpdates(s, id) && CachedAfterStop(s1, id, now) == CachedAfterStop(s, id, now)
  {
  }

  lemma StartCaches(s: State, id: Id, ms: nat, c0: nat, c1: nat)
    requires Core(s, false) && id in s.heap && 0 < c1
    ensures var s', d, cached := Start0(s, id, ms, true, c0, c1), Deadline(c1, ms), CachedAfterStop(s, id, c0);
      && s'.nextTs == (if d < cached then d else cached)
      && s'.worker == Signalled(s.worker, StopUpdates(s, id) || d < cached)
      && (forall x :: x in s'.armed <==> x in s.armed || x == id) && NoDup(s'.armed)
      && (d < cached ==> s'.armed[0] == id)
  {
    StopEffect(s, id, c0);
    CoreLists(s, false);
    NoneDangling(s);
    StartLists(s, id, ms, true, c0, c1);
    WithoutMembers(s.armed, id);
    StopLists(s, id, c0);
    hide Core, Listed, Stop0, Without, Dangling, Deadline, InsertSorted, CachedAfterStop, StopUpdates;
  }

  /** A new timer has the given type, is disarmed and without events, and belongs to the application. */
  lemma CreateEffect(s: State, id: Id, kind: Kind)
    requires Inv(s, false) && Enabled(s, DoCreate(id, kind))
    ensures var s' := Do(s, DoCreate(id, kind));
      && s' == s.(heap := s'.heap, owned := s.owned + {id})
      && s'.heap.Keys == s.heap.Keys + {id} && (forall x :: x in s.heap ==> s'.heap[x] == s.heap[x])
      && s'.heap[id].kind == kind && s'.heap[id].next == 0 && s'.heap[id].called == 0
      && !s'.heap[id].atomic && !s'.heap[id].removed
      && id !in s'.armed && Events(s', id) == 0
  {
    hide Sorted, NoDup;
  }

  /** An added timer has the given type and interval, is armed for its deadline and belongs to nobody. */
  lemma AddEffect(s: State, id: Id, kind: Kind, ms: nat, c0: nat, c1: nat)
    requires Inv(s, false) && Enabled(s, DoAdd(id, kind, ms, c0, c1))
    ensures var s', d := Do(s, DoAdd(id, kind, ms, c0, c1)), Deadline(c1, ms);
      && s' == s.(heap := s'.heap, armed := s'.armed, nextTs := if d < s.nextTs then d else s.nextTs,
                  worker := Signalled(s.worker, d < s.nextTs))
      && s'.heap.Keys == s.heap.Keys + {id} && (forall x :: x in s.heap ==> s'.heap[x] == s.heap[x])
      && s'.heap[id].kind == kind && s'.heap[id].interval == ms && s'.heap[id].next == d
      && s'.heap[id].called == 0 && s'.heap[id].atomic && !s'.heap[id].removed
      && NoDup(s'.armed) && (forall x :: x in s'.armed <==> x in s.armed || x == id)
      && id !in s'.owned && Events(s', id) == 0
  {
    var t := Timer(kind, 0, 0, 0, true, false);
    CreateKeeps(s, id, t, false);
    CountOf(s, id, false);
    assert id !in s.owned;
    hide Core, Start, Deadline;
    StartEffect(s.(heap := s.heap[id := t]), id, ms, c0, c1);
  }

  // ---------- Events ----------

  /** Taking up an event moves one from the queue into execution and touches nothing else. */
  lemma BeginEffect(s: State, id: Id)
    requires Inv(s, false) && Enabled(s, DoBegin(id))
    ensures var s' := Do(s, DoBegin(id));
      && s' == s.(queued := s'.queued, running := s'.running)
      && s.queued == s'.queued + multiset{id} && s'.running == s.running + multiset{id}
      && id in s'.heap && s'.heap[id].called > 0
  {
    CountOf(s, id, false);
    hide Core, Stations;
  }

  lemma OverIsDisarmed(s: State, id: Id)
    requires Inv(s, false) && id in s.running && id in s.heap
    ensures var t := s.heap[id];
      (t.removed && t.called == 1) || (t.kind == Once && t.atomic) ==> t.next == 0 && t.called == 1
  {
    CountOf(s, id, false);
    hide Core;
  }

  /**
    An event that ends leaves execution and is not counted any more. Its timer is freed if it was
    removed and this was the last event, or if it is an automatic one-shot, and stays otherwise.
   */
  lemma EndEffect(s: State, id: Id, now: nat)
    requires Inv(s, false) && Enabled(s, DoEnd(id, now))
    ensures id in s.heap
    ensures var s', t := Do(s, DoEnd(id, now)), s.heap[id];
      var over := (t.removed && t.called == 1) || (t.kind == Once && t.atomic);
      && s.running == s'.running + multiset{id}
      && s' == s.(running := s'.running, heap := s'.heap, freed := if over then s.freed + {id} else s.freed)
      && s'.heap == if over then s.heap - {id} else s.heap[id := t.(called := t.called - 1)]
  {
    CountOf(s, id, false);
    EndForm(s, id, now, false);
    var e, t := Ended(s, id), s.heap[id];
    var over := (t.removed && t.called == 1) || (t.kind == Once && t.atomic);
    OverIsDisarmed(s, id);
    hide Core, End, Stations, Destroy0, Stop0;
    CoreLists(e, false);
    if over {
      StopLists(e, id, now);
      DestroyForm(e, id, now);
      assert e.heap - {id} == s.heap - {id};
    }
  }

  // ---------- The timer thread ----------

  /** A wait may end without a signal, and whatever is due when the thread then looks gets its event. */
  lemma WaitEndsAndDueFires(s: State, now: nat, ticks: seq<nat>, c: nat, id: Id)
    requires Inv(s, true) && s.worker.Waiting? && id in s.armed && Next(s.heap, id) <= now
    requires |s.armed| <= |ticks| && 0 < now && forall k :: 0 <= k < |ticks| ==> now <= ticks[k]
    ensures Enabled(s, Wake) && Do(s, Wake) == s.(worker := Running)
    ensures Enabled(Do(s, Wake), DoScan(now, ticks, c))
    ensures Do(Do(s, Wake), DoScan(now, ticks, c)).queued[id] == s.queued[id] + 1
  {
    WakeKeeps(s, true);
    CoreLists(s, true);
    assert id in s.heap && s.heap[id].next != 0;
    hide Core, Scan;
    ScanFiresWhatIsDue(s.(worker := Running), now, ticks, c, id);
  }
}

/**
  rdtimer.c as it runs: timers are objects, rd_timers is the list linked through them, and every
  locked region rewrites both in place. Seen through St() each region is exactly a step of TimerSpec,
  and the object keeps TimerSafety's invariant.
 */
module TimerSystem {
  import opened TimerSpec
  import opened TimerLists
  import opened TimerHeap
  import opened TimerSafety
  import opened TimerEffects

  class Timers {
    const timers: RtList
    var nextTs: nat
    var worker: Worker
    var queued: multiset<Id>
    var running: multiset<Id>
    /** The allocated timers, those freed since, and those the application may pass in. */
    ghost var live: map<Id, Rt>
    ghost var freed: set<Id>
    ghost var owned: set<Id>

    ghost predicate Shape()
      reads this, timers, timers.list, live.Values
    {
      timers.Valid() && Named(live) && AllLive(live, timers.list)
    }

    ghost function St(): State
      reads this, timers, live.Values
    {
      State(Values(live), freed, Ids(timers.list), nextTs, queued, running, owned, worker, false)
    }

    ghost predicate IsLive(rt: Rt)
      reads this`live
    {
      rt.id in live && live[rt.id] == rt
    }

    ghost predicate Valid()
      reads this, timers, timers.list, live.Values
    {
      Shape() && Inv(St(), false)
    }

    constructor ()
      ensures Valid() && St() == INITIAL
      ensures timers.list == [] && nextTs == 0 && worker == Running
    {
      timers := new RtList();
      nextTs, worker := 0, Running;
      queued, running := multiset{}, multiset{};
      live, freed, owned := map[], {}, {};
    }

    /** rd_timers_next_update. */
    method NextUpdate(rt: Rt?, now: nat)
      requires Shape() && (rt != null ==> IsLive(rt))
      modifies this`nextTs, this`worker
      ensures Shape()
      ensures St() == TimerSpec.NextUpdate(old(St()), if rt == null then [] else [rt.id], now)
    {
      if rt != null {
        nextTs := rt.next;
      } else {
        nextTs := now + HOUR;
      }
      if worker.Waiting? {
        worker := worker.(signalled := true);
      }
    }

    /** rd_timer_stop0. */
    method Stop0(rt: Rt, now: nat)
      requires Shape() && IsLive(rt) && Listed(St())
      modifies this`nextTs, this`worker, timers, live.Values
      ensures Shape() && St() == TimerSpec.Stop0(old(St()), rt.id, now)
    {
      hide Inv, Core, Listed, Dangling, TimerSpec.Stop0, TimerSpec.NextUpdate, NoDup, Without, Shape, Ids, Chain,
        NoneTwice;
      LiveValue(rt);
      StopMeans(St(), rt.id, now);
      if rt.next == 0 {
        return;
      }
      ghost var s, k := St(), PositionOf(rt);
      ghost var first := if rt.after == null then [] else [rt.after.id];
      AtPosition(rt, k);
      UpdateByFirst(s, s.armed[1..], first, now);
      if rt.called == 0 && timers.first == rt {
        NextUpdate(rt.after, now);
      }
      Unlink(rt, k);
    }

    ghost function PositionOf(rt: Rt): (k: nat)
      requires Shape() && IsLive(rt) && Listed(St()) && rt.next != 0
      reads this, timers, timers.list, live.Values
      ensures k < |timers.list| && timers.list[k] == rt
    {
      assert St().heap[rt.id].next != 0;
      assert rt.id in St().armed;
      OnList(rt);
      Position(timers.list, rt)
    }

    lemma OnList(rt: Rt)
      requires Shape() && IsLive(rt) && rt.id in St().armed
      ensures rt in timers.list
    {
      var i :| 0 <= i < |timers.list| && Ids(timers.list)[i] == rt.id;
      assert timers.list[i] in timers.list;
    }

    lemma AtPosition(rt: Rt, k: nat)
      requires Shape() && Listed(St()) && k < |timers.list| && timers.list[k] == rt
      ensures timers.first == rt <==> k == 0
      ensures St().armed != [] && (St().armed[0] == rt.id <==> k == 0)
      ensures k == 0 ==> (rt.after == null <==> St().armed[1..] == [])
      ensures rt.after != null ==> IsLive(rt.after) && (k == 0 ==> St().armed[1..][0] == rt.after.id)
    {
      hide Listed, Inv;
      Neighbours(timers.first, timers.list, k);
      assert timers.list[0] in timers.list;
      if rt.after != null {
        assert timers.list[k + 1] in timers.list;
      }
    }

    /** LIST_REMOVE and the clearing of rt_next. */
    method Unlink(rt: Rt, ghost k: nat)
      requires Shape() && IsLive(rt) && k < |timers.list| && timers.list[k] == rt && NoDup(Ids(timers.list))
      modifies timers, live.Values
      ensures Shape() && timers.list == old(timers.list)[..k] + old(timers.list)[k + 1..]
      ensures var s := old(St());
        rt.id in s.heap
        && St() == s.(armed := Without(s.armed, rt.id), heap := s.heap[rt.id := s.heap[rt.id].(next := 0)])
    {
      hide *;
      LiveValue(rt);
      TakeOff(rt, k);
      SetNext(rt, 0);
    }

    method TakeOff(rt: Rt, ghost k: nat)
      requires Shape() && IsLive(rt) && k < |timers.list| && timers.list[k] == rt && NoDup(Ids(timers.list))
      modifies timers, live.Values
      ensures Shape() && timers.list == old(timers.list)[..k] + old(timers.list)[k + 1..] && rt !in timers.list
      ensures St() == old(St()).(armed := Without(old(St()).armed, rt.id))
    {
      hide Inv, Listed, NoDup, Without;
      FirstOnList();
      ghost var l, was := timers.list, Values(live);
      TakenOut(l, k);
      IdsWithout(l, k);
      timers.Remove(rt, k);
      SameValues(live, was);
    }

    method SetNext(rt: Rt, n: nat)
      requires Shape() && IsLive(rt) && rt !in timers.list
      modifies rt`next
      ensures Shape() && rt.next == n && rt.id in old(St()).heap
      ensures var s := old(St()); St() == s.(heap := s.heap[rt.id := s.heap[rt.id].(next := n)])
    {
      hide Inv, Listed;
      ghost var was := Values(live);
      rt.next := n;
      ValuesAfter(live, rt.id, was);
    }

    /** rd_timer_start0. */
    method Start0(rt: Rt, ms: nat, update: bool, c0: nat, c1: nat)
      requires Shape() && IsLive(rt) && Listed(St())
      modifies this`nextTs, this`worker, timers, live.Values
      ensures Shape() && St() == TimerSpec.Start0(old(St()), rt.id, ms, update, c0, c1)
    {
      hide *;
      LiveValue(rt);
      StartMeans(St(), rt.id, ms, update, c0, c1);
      Stop0(rt, c0);
      LiveValue(rt);
      Mean(rt);
      OffTheList(rt);
      SetNext(rt, Deadline(c1, ms));
      LinkIn(rt, update, c1);
    }

    /** What rd_timer_start0 does once the deadline is set. */
    method LinkIn(rt: Rt, update: bool, now: nat)
      requires Shape() && IsLive(rt) && rt !in timers.list
      modifies this`nextTs, this`worker, timers, live.Values
      ensures Shape() && St() == LinkNow(old(St()), rt.id, update, now)
    {
      hide Inv, Core, TimerSpec.InsertSorted;
      ghost var s := St();
      if rt.next < nextTs {
        timers.InsertHead(rt);
        SameValues(live, s.heap);
        assert Ids(timers.list) == [rt.id] + s.armed;
        if update {
          NextUpdate(rt, now);
        }
      } else {
        timers.InsertSorted(rt, s.heap);
        SameValues(live, s.heap);
      }
    }

    lemma OffTheList(rt: Rt)
      requires Shape() && IsLive(rt) && Listed(St()) && St().heap[rt.id].next == 0
      ensures rt !in timers.list
    {
      hide Listed;
      MemberIds(timers.list);
      ListedIff(St(), rt.id);
    }

    /** rd_timer_destroy0. */
    method Destroy0(rt: Rt, now: nat)
      requires Shape() && IsLive(rt) && Listed(St())
      modifies this`nextTs, this`worker, this`live, this`freed, timers, live.Values
      ensures Shape() && St() == TimerSpec.Destroy0(old(St()), rt.id, now)
    {
      hide *;
      ghost var s := St();
      LiveValue(rt);
      StopLists(s, rt.id, now);
      DestroyMeans(s, rt.id, now);
      Stop0(rt, now);
      LiveValue(rt);
      Mean(rt);
      OffTheList(rt);
      if rt.called != 0 {
        MarkRemoved(rt);
      } else {
        Free(rt);
      }
    }

    lemma Mean(rt: Rt)
      ensures rt.Value().called == rt.called && rt.Value().next == rt.next
      ensures rt.Value().kind == rt.kind && rt.Value().removed == rt.removed && rt.Value().atomic == rt.atomic
    {
    }

    /** Destruction is left to the end of the last event. */
    method MarkRemoved(rt: Rt)
      requires Shape() && IsLive(rt)
      modifies rt`removed
      ensures Shape() && rt.id in old(St()).heap
      ensures var s := old(St()); St() == s.(heap := s.heap[rt.id := s.heap[rt.id].(removed := true)])
    {
      hide Inv;
      ghost var was := Values(live);
      Links(timers.first, timers.list);
      rt.removed := true;
      ValuesAfter(live, rt.id, was);
      Relink(timers.first, timers.list);
    }

    /** free. */
    method Free(rt: Rt)
      requires Shape() && IsLive(rt) && rt !in timers.list
      modifies this`live, this`freed
      ensures Shape() && St() == old(St()).(heap := old(St()).heap - {rt.id}, freed := old(St()).freed + {rt.id})
    {
      hide Inv;
      Unlisted(live, timers.list, rt);
      live := live - {rt.id};
      freed := freed + {rt.id};
    }

    // ---------- The application ----------

    lemma Opened()
      requires Valid()
      ensures Shape() && Inv(St(), false) && Core(St(), false) && Listed(St())
      ensures forall id :: id in owned ==> id in live && !live[id].removed && !live[id].atomic
    {
    }

    /** rd_timer_new, for an address not in use. */
    method Create(id: Id, kind: Kind) returns (rt: Rt)
      requires Valid() && Enabled(St(), DoCreate(id, kind))
      modifies this
      ensures Valid() && St() == Do(old(St()), DoCreate(id, kind)) && fresh(rt) && IsLive(rt) && id in owned
      ensures live == old(live)[id := rt]
      ensures rt.kind == kind && rt.interval == rt.next == rt.called == 0 && !rt.atomic && !rt.removed
    {
      Opened();
      StepKeeps(St(), DoCreate(id, kind), false);
      hide Inv, Listed;
      rt := Allocate(id, kind);
      owned := owned + {id};
    }

    method Allocate(id: Id, kind: Kind) returns (rt: Rt)
      requires Shape() && id !in live
      modifies this`live
      ensures Shape() && fresh(rt) && rt.id == id && live == old(live)[id := rt]
      ensures rt.Value() == Timer(kind, 0, 0, 0, false, false)
      ensures St() == old(St()).(heap := old(St()).heap[id := Timer(kind, 0, 0, 0, false, false)])
    {
      rt := new Rt(id, kind);
      Added(live, timers.list, rt);
      live := live[id := rt];
    }

    /** rd_timer_start. */
    method Start(rt: Rt, ms: nat, c0: nat, c1: nat)
      requires Valid() && IsLive(rt) && Enabled(St(), DoStart(rt.id, ms, c0, c1))
      modifies this, timers, live.Values
      ensures Valid() && St() == Do(old(St()), DoStart(rt.id, ms, c0, c1)) && live == old(live)
      ensures rt in timers.list && rt.next == Deadline(c1, ms) && rt.interval == ms
    {
      Opened();
      ghost var s, step := St(), DoStart(rt.id, ms, c0, c1);
      StepKeeps(s, step, false);
      LiveValue(rt);
      StartStepKeeps(s, rt.id, ms, c0, c1, false);
      DeadlineAfter(c1, ms);
      assert Do(s, step) == TimerSpec.Start(s, rt.id, ms, c0, c1);
      hide *;
      StartUnlocked(rt, ms, c0, c1);
      Close(s, step);
      Armed(rt);
    }

    lemma Armed(rt: Rt)
      requires Valid() && IsLive(rt)
      ensures rt in timers.list <==> rt.next != 0
      ensures rt.next == St().heap[rt.id].next && rt.interval == St().heap[rt.id].interval
    {
      hide Listed;
      Opened();
      MemberIds(timers.list);
      ListedIff(St(), rt.id);
      if rt.id in St().armed {
        OnList(rt);
      }
    }

    /** The locked region of rd_timer_start. */
    method StartUnlocked(rt: Rt, ms: nat, c0: nat, c1: nat)
      requires Shape() && IsLive(rt) && Listed(St())
      modifies this`nextTs, this`worker, timers, live.Values
      ensures Shape() && St() == TimerSpec.Start(old(St()), rt.id, ms, c0, c1)
    {
      ListedWith(St(), rt.id, St().heap[rt.id].(interval := ms));
      hide Inv, TimerSpec.Start0, Listed;
      ghost var s := St();
      Links(timers.first, timers.list);
      rt.interval := ms;
      ValuesAfter(live, rt.id, s.heap);
      Relink(timers.first, timers.list);
      assert St() == s.(heap := s.heap[rt.id := s.heap[rt.id].(interval := ms)]);
      Start0(rt, ms, true, c0, c1);
    }

    /** rd_timer_add. */
    method AddAtomic(id: Id, kind: Kind, ms: nat, c0: nat, c1: nat)
      requires Valid() && Enabled(St(), DoAdd(id, kind, ms, c0, c1))
      modifies this, timers, live.Values
      ensures Valid() && St() == Do(old(St()), DoAdd(id, kind, ms, c0, c1))
      ensures id in live && live == old(live)[id := live[id]] && fresh(live[id]) && live[id] in timers.list
      ensures live[id].kind == kind && live[id].interval == ms && live[id].next == Deadline(c1, ms)
      ensures live[id].called == 0 && live[id].atomic && !live[id].removed
      ensures forall x :: x in old(St()).heap ==> x in St().heap && St().heap[x] == old(St()).heap[x]
    {
      Opened();
      ghost var s, step := St(), DoAdd(id, kind, ms, c0, c1);
      StepKeeps(s, step, false);
      ListedWith(s, id, Timer(kind, 0, 0, 0, true, false));
      assert Do(s, step) ==
        TimerSpec.Start(s.(heap := s.heap[id := Timer(kind, 0, 0, 0, true, false)]), id, ms, c0, c1);
      assert id !in live;
      hide *;
      var rt := AllocateAtomic(id, kind);
      StartUnlocked(rt, ms, c0, c1);
      Close(s, step);
      AddedOnObject(s, rt, kind, ms, c0, c1);
    }

    lemma AddedOnObject(s: State, rt: Rt, kind: Kind, ms: nat, c0: nat, c1: nat)
      requires Valid() && IsLive(rt) && Inv(s, false) && Enabled(s, DoAdd(rt.id, kind, ms, c0, c1))
      requires St() == Do(s, DoAdd(rt.id, kind, ms, c0, c1))
      ensures rt in timers.list && rt.kind == kind && rt.interval == ms && rt.next == Deadline(c1, ms)
      ensures rt.called == 0 && rt.atomic && !rt.removed
      ensures forall x :: x in s.heap ==> x in St().heap && St().heap[x] == s.heap[x]
    {
      AddedTimer(s, rt.id, kind, ms, c0, c1);
      LiveValue(rt);
      Armed(rt);
      hide Inv, Do, Enabled, Deadline, Shape;
    }

    method AllocateAtomic(id: Id, kind: Kind) returns (rt: Rt)
      requires Shape() && id !in live
      modifies this`live
      ensures Shape() && fresh(rt) && rt.id == id && IsLive(rt) && live == old(live)[id := rt]
      ensures St() == old(St()).(heap := old(St()).heap[id := Timer(kind, 0, 0, 0, true, false)])
    {
      hide Inv;
      rt := new Rt(id, kind);
      rt.atomic := true;
      Added(live, timers.list, rt);
      live := live[id := rt];
    }

    /** rd_timer_stop. */
    method Stop(rt: Rt, c0: nat)
      requires Valid() && IsLive(rt) && Enabled(St(), DoStop(rt.id, c0))
      modifies this, timers, live.Values
      ensures Valid() && St() == Do(old(St()), DoStop(rt.id, c0)) && live == old(live)
    {
      Opened();
      StepKeeps(St(), DoStop(rt.id, c0), false);
      hide Inv, Listed, TimerSpec.Stop0;
      Stop0(rt, c0);
    }

    /** rd_timer_destroy, after which the application must not use the timer. */
    method Destroy(rt: Rt, c0: nat)
      requires Valid() && IsLive(rt) && Enabled(St(), DoDestroy(rt.id, c0))
      modifies this, timers, live.Values
      ensures Valid() && St() == Do(old(St()), DoDestroy(rt.id, c0))
      ensures old(rt.called) == 0 <==> rt.id !in live
    {
      Opened();
      ghost var s, step := St(), DoDestroy(rt.id, c0);
      StepKeeps(s, step, false);
      CoreLists(s, false);
      LiveValue(rt);
      DisownedDestroy(s, rt.id, c0);
      hide *;
      Disown(rt);
      Destroy0(rt, c0);
      FreedIff(rt.id);
      Close(s, step);
    }

    /** The application gives up its reference. */
    method Disown(rt: Rt)
      requires Shape()
      modifies this`owned
      ensures Shape() && St() == old(St()).(owned := old(St()).owned - {rt.id})
    {
      owned := owned - {rt.id};
      hide Inv, Listed;
    }

    lemma FreedIff(id: Id)
      ensures id in live <==> id in St().heap
    {
    }

    // ---------- The event threads ----------

    /** rd_timer_call up to its callback; its assertion holds. */
    method Begin(rt: Rt)
      requires Valid() && rt.id in queued && IsLive(rt)
      modifies this
      ensures Valid() && St() == Do(old(St()), DoBegin(rt.id)) && live == old(live)
    {
      Opened();
      ghost var s, step := St(), DoBegin(rt.id);
      CountOf(s, rt.id, false);
      StepKeeps(s, step, false);
      LiveValue(rt);
      assert rt.called > 0;
      assert Do(s, step) == s.(queued := s.queued - multiset{rt.id}, running := s.running + multiset{rt.id});
      hide *;
      TakeUp(rt.id);
      Close(s, step);
    }

    /** The event leaves its queue and enters the callback. */
    method TakeUp(id: Id)
      requires Shape()
      modifies this`queued, this`running
      ensures Shape()
      ensures var s := old(St()); St() == s.(queued := s.queued - multiset{id}, running := s.running + multiset{id})
    {
      hide Inv, Listed;
      queued := queued - multiset{id};
      running := running + multiset{id};
    }

    /** rd_timer_call after its callback. */
    method End(rt: Rt, now: nat)
      requires Valid() && IsLive(rt) && Enabled(St(), DoEnd(rt.id, now))
      modifies this, timers, live.Values
      ensures Valid() && St() == Do(old(St()), DoEnd(rt.id, now))
      ensures rt.id !in live <==> old((rt.removed && rt.called == 1) || (rt.kind == Once && rt.atomic))
    {
      Opened();
      ghost var s, step := St(), DoEnd(rt.id, now);
      StepKeeps(s, step, false);
      EndForm(s, rt.id, now, false);
      CoreLists(Ended(s, rt.id), false);
      LiveValue(rt);
      assert Do(s, step) == TimerSpec.End(s, rt.id, now);
      EndFrees(s, rt.id, now);
      Mean(rt);
      hide *;
      CountDown(rt);
      if rt.removed && rt.called == 0 {
        Destroy0(rt, now);
      } else if rt.kind == Once && rt.atomic {
        Destroy0(rt, now);
      }
      FreedIff(rt.id);
      Close(s, step);
    }

    /** The event is over. */
    method CountDown(rt: Rt)
      requires Shape() && IsLive(rt)
      modifies this`running, rt`called
      ensures Shape() && IsLive(rt) && rt.called == old(rt.called) - 1
      ensures rt.id in old(St()).heap && St() == Ended(old(St()), rt.id)
    {
      hide Inv, Values, Ids;
      running := running - multiset{rt.id};
      SetCalled(rt, rt.called - 1);
    }

    method SetCalled(rt: Rt, n: int)
      requires Shape() && IsLive(rt)
      modifies rt`called
      ensures Shape() && rt.called == n && rt.id in old(St()).heap
      ensures var s := old(St());
        s.heap[rt.id].called == old(rt.called) && St() == s.(heap := s.heap[rt.id := s.heap[rt.id].(called := n)])
    {
      hide Inv;
      ghost var was := Values(live);
      Links(timers.first, timers.list);
      rt.called := n;
      ValuesAfter(live, rt.id, was);
      Relink(timers.first, timers.list);
    }

    // ---------- The timer thread ----------

    lemma FirstOnList()
      requires Shape()
      ensures forall rt :: rt in timers.list ==> rt in live.Values && IsLive(rt)
      ensures timers.first == null <==> St().armed == []
      ensures timers.first != null ==>
        && timers.list != [] && timers.list[0] == timers.first && IsLive(timers.first)
        && St().armed[0] == timers.first.id && timers.first.id in St().heap
        && St().heap[timers.first.id].next == timers.first.next
    {
      hide Inv, Listed;
    }

    /** The loop body: the first timer leaves the list and gets an event. */
    method FireFirst() returns (rt: Rt)
      requires Shape() && timers.first != null
      modifies this`queued, timers, live.Values
      ensures Shape() && IsLive(rt) && rt == old(timers.first)
      ensures old(St()).armed != [] && old(St()).armed[0] in old(St()).heap && St() == FireHead(old(St()))
      ensures |timers.list| < old(|timers.list|)
    {
      hide *;
      FirstOnList();
      Distinct();
      FireHeadMeans(St());
      rt := timers.first;
      Unlink(rt, 0);
      AddEvent(rt);
    }

    lemma Distinct()
      requires Shape()
      ensures NoDup(Ids(timers.list))
    {
      Links(timers.first, timers.list);
      IdsDistinct(live, timers.list);
    }

    /** rt_called counts the event that is queued. */
    method AddEvent(rt: Rt)
      requires Shape() && IsLive(rt)
      modifies this`queued, rt`called
      ensures Shape() && rt.id in old(St()).heap
      ensures var s := old(St());
        St() == s.(heap := s.heap[rt.id := s.heap[rt.id].(called := s.heap[rt.id].called + 1)],
          queued := s.queued + multiset{rt.id})
    {
      hide Inv, Values, Ids;
      SetCalled(rt, rt.called + 1);
      queued := queued + multiset{rt.id};
    }

    /** The first loop of rd_timers_run, without the stall alert. */
    method Fire(now: nat) returns (callouts: seq<Rt>)
      requires Shape()
      modifies this`queued, timers, live.Values
      ensures Shape() && St() == TimerSpec.Fire(old(St()), now).0
      ensures Ids(callouts) == TimerSpec.Fire(old(St()), now).1 && forall rt :: rt in callouts ==> IsLive(rt)
    {
      hide TimerSpec.Fire, Listed, Core, Inv, FireHead, Shape, Ids, St;
      callouts := [];
      FirstOnList();
      NoIds();
      while timers.first != null && timers.first.next <= now
        invariant Shape() && (timers.first != null ==> IsLive(timers.first))
        invariant forall rt :: rt in callouts ==> IsLive(rt)
        invariant TimerSpec.Fire(old(St()), now).0 == TimerSpec.Fire(St(), now).0
        invariant TimerSpec.Fire(old(St()), now).1 == Ids(callouts) + TimerSpec.Fire(St(), now).1
        decreases |timers.list|
      {
        FirstOnList();
        FireSteps(St(), now);
        ghost var rest := TimerSpec.Fire(FireHead(St()), now).1;
        var rt := FireFirst();
        FirstOnList();
        IdsSnoc(callouts, rt, rest);
        callouts := callouts + [rt];
      }
      FirstOnList();
      FireSteps(St(), now);
    }

    /** The second loop: fired recurring timers are started again. */
    method Restart(callouts: seq<Rt>, ticks: seq<nat>, ghost now: nat)
      requires Shape() && Listed(St()) && |callouts| <= |ticks| && forall rt :: rt in callouts ==> IsLive(rt)
      requires Restartable(St(), Ids(callouts), ticks, now)
      modifies this`nextTs, this`worker, timers, live.Values
      ensures Shape() && St() == TimerSpec.Restart(old(St()), Ids(callouts), ticks)
    {
      hide Inv, Core, TimerSpec.Start0, Listed, Restartable, TimerSpec.Restart, Shape, Ids, St;
      ghost var ids := Ids(callouts);
      assert ids[0..] == ids && ticks[0..] == ticks;
      var k := 0;
      while k < |callouts|
        invariant k <= |callouts| && Shape() && Listed(St()) && Restartable(St(), ids[k..], ticks[k..], now)
        invariant TimerSpec.Restart(old(St()), ids, ticks) == TimerSpec.Restart(St(), ids[k..], ticks[k..])
      {
        var rt := callouts[k];
        assert rt in callouts;
        assert ids[k..][0] == rt.id && ids[k..][1..] == ids[k + 1..] && ticks[k..][0] == ticks[k] &&
          ticks[k..][1..] == ticks[k + 1..];
        RestartSteps(St(), ids[k..], ticks[k..], now);
        LiveValue(rt);
        if rt.kind == Recurring {
          Start0(rt, rt.interval, false, ticks[k], ticks[k]);
        }
        k := k + 1;
      }
      RestartSteps(St(), ids[k..], ticks[k..], now);
    }

    lemma LiveValue(rt: Rt)
      requires IsLive(rt)
      ensures rt.id in St().heap && St().heap[rt.id] == rt.Value() && rt in live.Values
    {
    }

    /** Then the update and the wait. */
    method Sleep(c: nat)
      requires Shape()
      modifies this`nextTs, this`worker
      ensures Shape()
      ensures var s := TimerSpec.NextUpdate(old(St()), old(St()).armed, c);
        St() == s.(worker := Waiting(s.nextTs, false))
    {
      hide Inv, Listed;
      FirstOnList();
      NextUpdate(timers.first, c);
      worker := Waiting(nextTs, false);
    }

    /** One round of rd_timers_run. */
    method Scan(now: nat, ticks: seq<nat>, c: nat)
      requires Valid() && Enabled(St(), DoScan(now, ticks, c))
      modifies this, timers, live.Values
      ensures Valid() && St() == Do(old(St()), DoScan(now, ticks, c)) && live == old(live)
    {
      Opened();
      StepKeeps(St(), DoScan(now, ticks, c), false);
      ScanParts(St(), now, ticks, c);
      hide *;
      var callouts := Fire(now);
      Restart(callouts, ticks, now);
      Sleep(c);
      Close(old(St()), DoScan(now, ticks, c));
    }

    lemma Close(s: State, step: Step)
      requires Shape() && Enabled(s, step) && St() == Do(s, step) && Inv(Do(s, step), false)
      ensures Valid()
    {
      hide Inv, Do, Enabled;
    }

    /** rd_cond_timedwait returns. */
    method Wake()
      requires Valid() && worker.Waiting?
      modifies this
      ensures Valid() && St() == Do(old(St()), TimerSpec.Wake) && live == old(live)
    {
      Opened();
      StepKeeps(St(), TimerSpec.Wake, false);
      hide Inv;
      worker := Running;
    }

    ghost function Position(l: seq<Rt>, rt: Rt): (k: nat)
      requires rt in l
      ensures k < |l| && l[k] == rt
    {
      if l[0] == rt then 0 else 1 + Position(l[1..], rt)
    }
  }

  lemma AddedTimer(s: State, id: Id, kind: Kind, ms: nat, c0: nat, c1: nat)
    requires Inv(s, false) && Enabled(s, DoAdd(id, kind, ms, c0, c1))
    ensures var s' := Do(s, DoAdd(id, kind, ms, c0, c1));
      && s'.heap == s.heap[id := Timer(kind, ms, Deadline(c1, ms), 0, true, false)]
      && Deadline(c1, ms) > 0 && id !in s.heap
  {
    AddEffect(s, id, kind, ms, c0, c1);
    DeadlineAfter(c1, ms);
    hide Inv, Do, Deadline;
  }

  lemma ValuesAfter(live: map<Id, Rt>, id: Id, was: map<Id, Timer>)
    requires Named(live) && id in live && was.Keys == live.Keys
    requires forall x :: x in live && x != id ==> live[x].Value() == was[x]
    ensures Values(live) == was[id := live[id].Value()]
  {
  }

  lemma SameValues(live: map<Id, Rt>, was: map<Id, Timer>)
    requires was.Keys == live.Keys && forall x :: x in live ==> live[x].Value() == was[x]
    ensures Values(live) == was
  {
  }

  lemma ListedWith(s: State, id: Id, t: Timer)
    requires Listed(s) && t.next == if id in s.heap then s.heap[id].next else 0
    ensures Listed(s.(heap := s.heap[id := t]))
  {
  }

  lemma NoIds()
    ensures Ids([]) == []
  {
  }

  lemma IdsSnoc(l: seq<Rt>, rt: Rt, rest: seq<Id>)
    ensures Ids(l + [rt]) + rest == Ids(l) + ([rt.id] + rest)
  {
  }

  lemma ScanParts(s: State, now: nat, ticks: seq<nat>, c: nat)
    requires Inv(s, false) && Enabled(s, DoScan(now, ticks, c))
    ensures var (s1, callouts) := TimerSpec.Fire(s, now);
      && |callouts| <= |ticks| && Listed(s1) && Restartable(s1, callouts, ticks, now)
      && var s2 := TimerSpec.Restart(s1, callouts, ticks);
         var s3 := TimerSpec.NextUpdate(s2, s2.armed, c);
         Do(s, DoScan(now, ticks, c)) == s3.(worker := Waiting(s3.nextTs, false))
  {
    hide Core, TimerSpec.Fire, TimerSpec.Restart, Listed, Restartable, Dangling, Fired, Stations, TimerSpec.NextUpdate;
    CoreLists(s, false);
    NoneDangling(s);
    FireShrinks(s, now);
    ScanEffect(s, now, ticks, c, false);
    FireIsExact(s, now, {}, false);
    CoreLists(TimerSpec.Fire(s, now).0, false);
  }

  lemma RestartSteps(s: State, callouts: seq<Id>, ticks: seq<nat>, now: nat)
    requires Listed(s) && Restartable(s, callouts, ticks, now)
    ensures callouts == [] ==> TimerSpec.Restart(s, callouts, ticks) == s
    ensures callouts != [] ==> var s1 := RestartOne(s, callouts[0], ticks[0]);
      && Listed(s1) && Restartable(s1, callouts[1..], ticks[1..], now) && callouts[0] in s.heap
      && TimerSpec.Restart(s, callouts, ticks) == TimerSpec.Restart(s1, callouts[1..], ticks[1..])
  {
    if callouts != [] {
      assert callouts[0] in callouts;
      RestartOneLists(s, callouts, ticks, now);
    }
  }

  lemma Added(live: map<Id, Rt>, l: seq<Rt>, rt: Rt)
    requires Named(live) && AllLive(live, l) && rt.id !in live
    ensures Named(live[rt.id := rt]) && AllLive(live[rt.id := rt], l)
    ensures Values(live[rt.id := rt]) == Values(live)[rt.id := rt.Value()]
  {
  }

  /** A timer that is off the list can be deallocated. */
  lemma Unlisted(live: map<Id, Rt>, l: seq<Rt>, rt: Rt)
    requires Named(live) && AllLive(live, l) && rt.id in live && live[rt.id] == rt && rt !in l
    ensures Named(live - {rt.id}) && AllLive(live - {rt.id}, l)
    ensures Values(live - {rt.id}) == Values(live) - {rt.id}
  {
  }

  ghost function LinkNow(s: State, id: Id, update: bool, now: nat): State {
    if Next(s.heap, id) < s.nextTs then
      var s1 := s.(armed := [id] + s.armed);
      if update then TimerSpec.NextUpdate(s1, [id], now) else s1
    else
      s.(armed := TimerSpec.InsertSorted(s.heap, s.armed, id))
  }

  lemma LinkIsLinkNow(s: State, id: Id, d: nat, update: bool, now: nat)
    requires id in s.heap
    ensures Link(s, id, d, update, now) == LinkNow(s.(heap := s.heap[id := s.heap[id].(next := d)]), id, update, now)
  {
    hide TimerSpec.InsertSorted;
  }

  lemma EndFrees(s: State, id: Id, now: nat)
    requires Inv(s, false) && id in s.running
    ensures id in s.heap && (id !in TimerSpec.End(s, id, now).heap <==>
      (s.heap[id].removed && s.heap[id].called == 1) || (s.heap[id].kind == Once && s.heap[id].atomic))
  {
    CountOf(s, id, false);
    EndForm(s, id, now, false);
    EndKeeps(s, id, now, false);
    hide Inv, TimerSpec.End, Core, TimerSpec.Destroy0;
  }

  lemma StartMeans(s: State, id: Id, ms: nat, update: bool, c0: nat, c1: nat)
    requires Listed(s) && id in s.heap
    ensures var s1 := TimerSpec.Stop0(s, id, c0);
      && id in s1.heap && s1.heap[id].next == 0 && Listed(s1)
      && TimerSpec.Start0(s, id, ms, update, c0, c1) ==
         LinkNow(s1.(heap := s1.heap[id := s1.heap[id].(next := Deadline(c1, ms))]), id, update, c1)
  {
    NoneDangling(s);
    StopLists(s, id, c0);
    LinkIsLinkNow(TimerSpec.Stop0(s, id, c0), id, Deadline(c1, ms), update, c1);
    hide TimerSpec.Stop0, Listed, Dangling, Link, LinkNow, Deadline;
  }

  lemma DisownedDestroy(s: State, id: Id, now: nat)
    requires Listed(s) && id in s.heap && Enabled(s, DoDestroy(id, now))
    ensures var s1 := s.(owned := s.owned - {id});
      && Listed(s1) && Do(s, DoDestroy(id, now)) == TimerSpec.Destroy0(s1, id, now)
      && (id !in TimerSpec.Destroy0(s1, id, now).heap <==> s.heap[id].called == 0)
  {
    var s1 := s.(owned := s.owned - {id});
    DestroyForm(s1, id, now);
    hide TimerSpec.Destroy0, TimerSpec.Stop0;
  }

  lemma DestroyMeans(s: State, id: Id, now: nat)
    requires Listed(s) && id in s.heap
    ensures var s1 := TimerSpec.Stop0(s, id, now);
      && id in s1.heap && s1.heap[id].next == 0 && Listed(s1)
      && TimerSpec.Destroy0(s, id, now) ==
         if s1.heap[id].called != 0 then s1.(heap := s1.heap[id := s1.heap[id].(removed := true)])
         else s1.(heap := s1.heap - {id}, freed := s1.freed + {id})
  {
    NoneDangling(s);
    StopLists(s, id, now);
    hide TimerSpec.Stop0, Listed, Dangling;
  }

  lemma StopMeans(s: State, id: Id, now: nat)
    requires Listed(s) && id in s.heap
    ensures s.heap[id].next == 0 ==> TimerSpec.Stop0(s, id, now) == s
    ensures s.heap[id].next != 0 ==>
      var s1 :=
        if s.heap[id].called == 0 && s.armed != [] && s.armed[0] == id then TimerSpec.NextUpdate(s, s.armed[1..], now)
        else s;
      TimerSpec.Stop0(s, id, now) == s1.(armed := Without(s.armed, id), heap := s.heap[id := s.heap[id].(next := 0)])
    ensures NoDup(s.armed)
  {
    NoneDangling(s);
    hide Dangling, Without, TimerSpec.NextUpdate;
  }

  lemma UpdateByFirst(s: State, l: seq<Id>, first: seq<Id>, now: nat)
    ensures (l == [] <==> first == []) && (l != [] ==> l[0] == first[0]) ==>
      TimerSpec.NextUpdate(s, l, now) == TimerSpec.NextUpdate(s, first, now)
  {
  }

  lemma FireHeadMeans(s: State)
    requires s.armed != [] && s.armed[0] in s.heap
    ensures var id := s.armed[0];
      var s1 := s.(armed := Without(s.armed, id), heap := s.heap[id := s.heap[id].(next := 0)]);
      FireHead(s) == s1.(heap := s1.heap[id := s1.heap[id].(called := s1.heap[id].called + 1)],
        queued := s1.queued + multiset{id})
  {
    var id := s.armed[0];
    assert s.heap[id := s.heap[id].(next := 0)][id := s.heap[id].(next := 0, called := s.heap[id].called + 1)]
        == s.heap[id := s.heap[id].(next := 0, called := s.heap[id].called + 1)];
  }

  lemma MemberIds(l: seq<Rt>)
    ensures forall rt :: rt in l ==> rt.id in Ids(l)
  {
    forall rt | rt in l ensures rt.id in Ids(l) {
      var i :| 0 <= i < |l| && l[i] == rt;
      assert Ids(l)[i] == rt.id;
    }
  }

  lemma ListedIff(s: State, id: Id)
    requires Listed(s)
    ensures id in s.armed <==> id in s.heap && s.heap[id].next != 0
  {
  }

  lemma {:induction false} IdsDistinct(live: map<Id, Rt>, l: seq<Rt>)
    requires AllLive(live, l) && NoneTwice(l)
    ensures NoDup(Ids(l))
    decreases |l|
  {
    if l != [] {
      assert forall rt :: rt in l[1..] ==> rt in l;
      IdsDistinct(live, l[1..]);
      assert Ids(l)[1..] == Ids(l[1..]);
      assert l[0] in l && forall i :: 0 < i < |l| ==> l[i] in l && l[i].id != l[0].id;
    }
  }

  lemma IdsWithout(l: seq<Rt>, k: nat)
    requires k < |l| && NoDup(Ids(l))
    ensures Without(Ids(l), l[k].id) == Ids(l[..k] + l[k + 1..])
  {
    WithoutAt(Ids(l), k);
    assert Ids(l[..k] + l[k + 1..]) == Ids(l)[..k] + Ids(l)[k + 1..];
    hide Without, NoDup;
  }

  lemma WithoutStep(ids: seq<Id>, k: nat)
    requires k < |ids| && NoDup(ids)
    ensures k == 0 ==> Without(ids, ids[k]) == ids[1..]
    ensures k > 0 ==> NoDup(ids[1..]) && Without(ids, ids[k]) == [ids[0]] + Without(ids[1..], ids[k])
  {
    if k > 0 {
      assert ids[1..][k - 1] == ids[k];
    }
  }

  lemma {:induction false} WithoutAt(ids: seq<Id>, k: nat)
    requires k < |ids| && NoDup(ids)
    ensures Without(ids, ids[k]) == ids[..k] + ids[k + 1..]
    decreases k
  {
    hide *;
    WithoutStep(ids, k);
    if k == 0 {
      assert ids[..0] + ids[1..] == ids[1..];
    } else {
      WithoutAt(ids[1..], k - 1);
      FirstKept(ids, k);
    }
  }

  lemma FirstKept(ids: seq<Id>, k: nat)
    requires 0 < k < |ids|
    ensures ids[1..][k - 1] == ids[k]
    ensures [ids[0]] + (ids[1..][..k - 1] + ids[1..][k..]) == ids[..k] + ids[k + 1..]
  {
    assert ids[..k] == [ids[0]] + ids[1..][..k - 1] && ids[k + 1..] == ids[1..][k..];
  }
}

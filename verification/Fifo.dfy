/**
  rdqueue.c and rdqueue.h: the bounded queue with reference counts. Elements are numbered in the
  order in which they are added; each call is one step under the queue's lock.
 */
module Fifo {
  import opened Basics

  /**
    q, delivered and purged hold element numbers; added the pointer of each element and refs its
    reference count, 0 once it is freed.
   */
  datatype State<P> = State(
    q: seq<nat>, cnt: int, maxSize: int, taildrop: bool,
    added: seq<P>, refs: seq<int>, delivered: seq<nat>, purged: seq<nat>)

  function Empty<P>(): State<P> {
    State([], 0, 0, false, [], [], [], [])
  }

  // ---------- The steps ----------

  predicate Full<P>(s: State<P>) {
    s.maxSize != 0 && s.cnt >= s.maxSize
  }

  /** The element that an addition pushes out. */
  function Victim<P>(s: State<P>): nat
    requires s.q != []
  {
    if s.taildrop then s.q[|s.q| - 1] else s.q[0]
  }

  function Purge<P>(s: State<P>): State<P>
    requires s.q != []
  {
    s.(q := if s.taildrop then s.q[..|s.q| - 1] else s.q[1..], cnt := s.cnt - 1, purged := s.purged + [Victim(s)])
  }

  function Insert<P>(s: State<P>, ptr: P): State<P> {
    s.(q := s.q + [|s.added|], cnt := s.cnt + 1, added := s.added + [ptr], refs := s.refs + [2])
  }

  /** rd_fifoq_add0 reads through a null pointer when the queue is full and yet empty. */
  predicate AddFaults<P>(s: State<P>) {
    Full(s) && s.q == []
  }

  function Add<P>(s: State<P>, ptr: P): State<P>
    requires !AddFaults(s)
  {
    Insert(if Full(s) then Purge(s) else s, ptr)
  }

  /** rd_fifoq_elm_release0. */
  function Release<P>(s: State<P>, id: nat): State<P>
    requires id < |s.refs|
  {
    s.(refs := s.refs[id := s.refs[id] - 1])
  }

  /** rd_fifoq_pop0 once the queue holds an element. */
  function Pop<P>(s: State<P>): State<P>
    requires s.q != [] && s.q[0] < |s.refs|
  {
    Release(s.(q := s.q[1..], cnt := s.cnt - 1, delivered := s.delivered + [s.q[0]]), s.q[0])
  }

  // ---------- What every step keeps ----------

  ghost predicate Ascending(ids: seq<nat>) {
    forall i, j :: 0 <= i < j < |ids| ==> ids[i] < ids[j]
  }

  /** How often an element is on the queue, delivered or purged, all together. */
  function Places<P>(s: State<P>, id: nat): nat {
    multiset(s.q)[id] + multiset(s.delivered)[id] + multiset(s.purged)[id]
  }

  /** Every added element is in exactly one place, once, and nothing else is anywhere. */
  ghost predicate Conserved<P>(s: State<P>) {
    forall id: nat :: Places(s, id) == if id < |s.added| then 1 else 0
  }

  /** Queued and purged elements hold both references, delivered ones the consumer's or none. */
  ghost predicate Counted<P>(s: State<P>) {
    |s.refs| == |s.added| &&
    forall k :: 0 <= k < |s.refs| ==>
      (k in s.q || k in s.purged ==> s.refs[k] == 2) && (k in s.delivered ==> 0 <= s.refs[k] <= 1)
  }

  ghost predicate Inv<P>(s: State<P>) {
    s.cnt == |s.q| && Ascending(s.delivered + s.q) && Conserved(s) && Counted(s)
  }

  lemma OnePlace<P>(s: State<P>, id: nat)
    requires Conserved(s)
    ensures id in s.q ==> id < |s.added| && id !in s.delivered && id !in s.purged
    ensures id in s.delivered ==> id < |s.added| && id !in s.q && id !in s.purged
    ensures id in s.purged ==> id < |s.added| && id !in s.q && id !in s.delivered
    ensures id < |s.added| ==> id in s.q || id in s.delivered || id in s.purged
  {
    assert Places(s, id) == if id < |s.added| then 1 else 0;
    assert id in s.q <==> multiset(s.q)[id] > 0;
    assert id in s.delivered <==> multiset(s.delivered)[id] > 0;
    assert id in s.purged <==> multiset(s.purged)[id] > 0;
  }

  lemma TakeOut(q: seq<nat>, delivered: seq<nat>)
    requires q != []
    ensures multiset(q) == multiset(q[1..]) + multiset{q[0]} == multiset(q[..|q| - 1]) + multiset{q[|q| - 1]}
    ensures (delivered + [q[0]]) + q[1..] == delivered + q
    ensures delivered + q[..|q| - 1] == (delivered + q)[..|delivered + q| - 1]
  {
    assert q == [q[0]] + q[1..];
    assert q == q[..|q| - 1] + [q[|q| - 1]];
  }

  lemma AscendingParts(delivered: seq<nat>, q: seq<nat>)
    requires Ascending(delivered + q) && q != []
    ensures Ascending(delivered + q[1..]) && Ascending((delivered + q)[..|delivered + q| - 1])
  {
    var a, b := delivered + q, delivered + q[1..];
    forall i, j | 0 <= i < j < |b| ensures b[i] < b[j] {
      var i', j' := if i < |delivered| then i else i + 1, if j < |delivered| then j else j + 1;
      assert b[i] == a[i'] && b[j] == a[j'];
    }
  }

  lemma PurgeKeeps<P>(s: State<P>)
    requires Inv(s) && s.q != []
    ensures Inv(Purge(s)) && Victim(s) < |s.refs| && s.refs[Victim(s)] == 2
  {
    hide Ascending;
    var t, v := Purge(s), Victim(s);
    TakeOut(s.q, s.delivered);
    AscendingParts(s.delivered, s.q);
    OnePlace(s, v);
    forall id: nat ensures Places(t, id) == Places(s, id) {
      assert multiset(t.purged)[id] == multiset(s.purged)[id] + multiset{v}[id];
    }
    forall k | k in t.q || k in t.purged ensures k in s.q || k in s.purged {
      assert k in t.q ==> k in multiset(t.q);
    }
  }

  lemma InsertKeeps<P>(s: State<P>, ptr: P)
    requires Inv(s)
    ensures Inv(Insert(s, ptr))
  {
    var t, n := Insert(s, ptr), |s.added|;
    assert t.delivered + t.q == (s.delivered + s.q) + [n];
    forall id: nat ensures Places(t, id) == Places(s, id) + if id == n then 1 else 0 {
    }
    forall k | k in s.delivered + s.q || k in s.purged ensures k < n {
      OnePlace(s, k);
    }
    OnePlace(s, n);
    assert forall i :: 0 <= i < |s.delivered + s.q| ==> (s.delivered + s.q)[i] in s.delivered + s.q;
    forall k | k in t.q ensures k in s.q || k == n {
    }
  }

  lemma PopMoves<P>(s: State<P>, id: nat)
    requires s.q != [] && s.q[0] < |s.refs|
    ensures Places(Pop(s), id) == Places(s, id)
    ensures Pop(s).delivered + Pop(s).q == s.delivered + s.q
    ensures id in Pop(s).q ==> id in s.q
    ensures id in Pop(s).delivered <==> id in s.delivered || id == s.q[0]
  {
    TakeOut(s.q, s.delivered);
    var v := s.q[0];
    assert multiset(s.delivered + [v])[id] == multiset(s.delivered)[id] + multiset{v}[id];
  }

  lemma PopKeeps<P>(s: State<P>)
    requires Inv(s) && s.q != []
    ensures s.q[0] < |s.refs| && s.refs[s.q[0]] == 2 && Inv(Pop(s)) && Pop(s).refs[s.q[0]] == 1
  {
    OnePlace(s, s.q[0]);
    var t, v := Pop(s), s.q[0];
    PopMoves(s, v);
    assert |t.refs| == |s.refs| && t.cnt == |t.q| && t.purged == s.purged;
    assert forall k :: 0 <= k < |s.refs| && k != v ==> t.refs[k] == s.refs[k];
    hide Pop, Places, Ascending;
    forall id: nat ensures Places(t, id) == Places(s, id) {
      PopMoves(s, id);
    }
    OnePlace(t, v);
    forall k: nat | k < |s.refs| ensures (k in t.q ==> k in s.q) && (k in t.delivered ==> k in s.delivered || k == v) {
      PopMoves(s, k);
    }
  }

  lemma ReleaseKeeps<P>(s: State<P>, id: nat)
    requires Inv(s) && id in s.delivered && id < |s.refs| && s.refs[id] == 1
    ensures Inv(Release(s, id))
  {
    OnePlace(s, id);
    assert forall k: nat :: Places(Release(s, id), k) == Places(s, k);
  }

  // ---------- Runs ----------

  datatype Op<P> = DoAdd(ptr: P) | DoPop | DoRelease(id: nat) | DoSetMax(size: int, taildrop: bool)

  /** A pop without waiting, or one that times out, finds the queue empty and changes nothing. */
  function Step<P>(s: State<P>, op: Op<P>): State<P>
    requires Enabled(s, op)
  {
    match op
    case DoAdd(ptr) => Add(s, ptr)
    case DoPop => if s.q == [] then s else Pop(s)
    case DoRelease(id) => Release(s, id)
    case DoSetMax(size, taildrop) => s.(maxSize := size, taildrop := taildrop)
  }

  /** A consumer releases what it popped, once; an addition is not made where it would fault. */
  predicate Enabled<P>(s: State<P>, op: Op<P>) {
    match op
    case DoAdd(_) => !AddFaults(s)
    case DoPop => s.q != [] ==> s.q[0] < |s.refs|
    case DoRelease(id) => id in s.delivered && id < |s.refs| && s.refs[id] == 1
    case DoSetMax(_, _) => true
  }

  ghost predicate Follows<P>(s: State<P>, op: Op<P>, t: State<P>) {
    Enabled(s, op) && t == Step(s, op)
  }

  ghost predicate IsRun<P>(states: seq<State<P>>, ops: seq<Op<P>>) {
    |states| == |ops| + 1 && states[0] == Empty() &&
    forall i :: 0 <= i < |ops| ==> Follows(states[i], ops[i], states[i + 1])
  }

  lemma StepKeeps<P>(s: State<P>, op: Op<P>)
    requires Inv(s) && Enabled(s, op)
    ensures Inv(Step(s, op))
  {
    match op
    case DoAdd(ptr) =>
      if Full(s) {
        PurgeKeeps(s);
        InsertKeeps(Purge(s), ptr);
      } else {
        InsertKeeps(s, ptr);
      }
    case DoPop =>
      if s.q != [] {
        PopKeeps(s);
      }
    case DoRelease(id) => ReleaseKeeps(s, id);
    case DoSetMax(_, _) =>
      assert forall k: nat :: Places(Step(s, op), k) == Places(s, k);
  }

  lemma {:induction false} RunKeeps<P>(states: seq<State<P>>, ops: seq<Op<P>>, i: nat)
    requires IsRun(states, ops) && i < |states|
    ensures Inv(states[i])
  {
    if i == 0 {
      assert forall id: nat :: Places(states[0], id) == 0;
    } else {
      RunKeeps(states, ops, i - 1);
      assert Follows(states[i - 1], ops[i - 1], states[i - 1 + 1]);
      StepKeeps(states[i - 1], ops[i - 1]);
    }
  }

  // ---------- What holds in every run ----------

  /** Each added element is exactly one of queued, delivered once, purged once; the counter is the queue's length. */
  lemma NothingLostNothingTwice<P>(states: seq<State<P>>, ops: seq<Op<P>>, i: nat)
    requires IsRun(states, ops) && i < |states|
    ensures states[i].cnt == |states[i].q|
    ensures forall id: nat :: Places(states[i], id) == if id < |states[i].added| then 1 else 0
  {
    RunKeeps(states, ops, i);
  }

  /** Elements are delivered in the order of their addition, and before all that are still queued. */
  lemma DeliveredInOrder<P>(states: seq<State<P>>, ops: seq<Op<P>>, i: nat, a: nat, b: nat)
    requires IsRun(states, ops) && i < |states| && a < b < |states[i].delivered + states[i].q|
    ensures (states[i].delivered + states[i].q)[a] < (states[i].delivered + states[i].q)[b] < |states[i].added|
  {
    RunKeeps(states, ops, i);
    var s := states[i];
    assert (s.delivered + s.q)[b] in s.delivered + s.q;
    OnePlace(s, (s.delivered + s.q)[b]);
  }

  lemma NoMembers(ids: seq<nat>)
    ensures (forall k :: 0 <= k ==> k !in ids) ==> ids == []
  {
    if ids != [] {
      assert ids[0] in ids;
    }
  }

  lemma {:induction false} AscendingFull(ids: seq<nat>, n: nat)
    requires Ascending(ids) && (forall k :: 0 <= k < n <==> k in ids)
    ensures |ids| == n && forall k :: 0 <= k < n ==> ids[k] == k
    decreases n
  {
    if n == 0 {
      NoMembers(ids);
    } else {
      assert n - 1 in ids;
      var m := |ids| - 1;
      var p :| 0 <= p <= m && ids[p] == n - 1;
      assert ids[m] in ids;
      assert p == m;
      forall k ensures 0 <= k < n - 1 <==> k in ids[..m] {
        if k in ids[..m] {
          var q :| 0 <= q < m && ids[..m][q] == k;
          assert ids[q] < ids[m];
          assert k in ids;
        }
        if 0 <= k < n - 1 {
          assert k in ids;
          var q :| 0 <= q <= m && ids[q] == k;
          assert ids[..m][q] == k;
        }
      }
      AscendingFull(ids[..m], n - 1);
    }
  }

  /** Unless something was purged, what was delivered and what is queued are all additions in order. */
  lemma FifoUnlessPurged<P>(states: seq<State<P>>, ops: seq<Op<P>>, i: nat, k: nat)
    requires IsRun(states, ops) && i < |states| && states[i].purged == [] && k < |states[i].added|
    ensures |states[i].delivered + states[i].q| == |states[i].added|
    ensures (states[i].delivered + states[i].q)[k] == k
  {
    RunKeeps(states, ops, i);
    var s := states[i];
    forall id ensures 0 <= id < |s.added| <==> id in s.delivered + s.q {
      if id >= 0 {
        OnePlace(s, id);
      }
    }
    AscendingFull(s.delivered + s.q, |s.added|);
  }

  /** A popped element has its consumer's reference left, and only that. */
  lemma PoppedIsHeld<P>(states: seq<State<P>>, ops: seq<Op<P>>, i: nat)
    requires IsRun(states, ops) && i < |states| && states[i].q != []
    ensures states[i].q[0] < |states[i].refs| && states[i].refs[states[i].q[0]] == 2
    ensures Held(Pop(states[i]), states[i].q[0])
  {
    RunKeeps(states, ops, i);
    PopKeeps(states[i]);
  }

  /** Delivered and not released yet. */
  predicate Held<P>(s: State<P>, id: nat) {
    id in s.delivered && id < |s.refs| && s.refs[id] == 1
  }

  /** One step lets go of a popped element if and only if it is its release. */
  lemma HeldUntilReleased<P>(s: State<P>, op: Op<P>, id: nat)
    requires Inv(s) && Enabled(s, op) && Held(s, id)
    ensures Held(Step(s, op), id) <==> op != DoRelease(id)
    ensures op == DoRelease(id) ==> Step(s, op).refs[id] == 0
  {
    OnePlace(s, id);
    if op.DoPop? && s.q != [] {
      OnePlace(s, s.q[0]);
    }
    hide Ascending, Conserved, Places;
  }

  /** A popped element stays allocated from its pop until its consumer releases it, whatever else happens. */
  lemma {:induction false} PoppedStaysAllocated<P>(states: seq<State<P>>, ops: seq<Op<P>>, i: nat, j: nat, id: nat)
    requires IsRun(states, ops) && i <= j < |states| && Held(states[i], id)
    requires forall k :: i <= k < j ==> ops[k] != DoRelease(id)
    ensures Held(states[j], id)
    decreases j
  {
    if i < j {
      PoppedStaysAllocated(states, ops, i, j - 1, id);
      RunKeeps(states, ops, j - 1);
      assert Follows(states[j - 1], ops[j - 1], states[j - 1 + 1]);
      hide Inv, Held, Step, Enabled;
      HeldUntilReleased(states[j - 1], ops[j - 1], id);
    }
  }

  /** The branches for an element that only the queue still refers to are never taken. */
  lemma OnlyQueueRefersNever<P>(states: seq<State<P>>, ops: seq<Op<P>>, i: nat, id: nat)
    requires IsRun(states, ops) && i < |states| && id in states[i].q
    ensures id < |states[i].refs| && states[i].refs[id] == 2
  {
    RunKeeps(states, ops, i);
    OnePlace(states[i], id);
  }

  /** A purged element keeps both references for ever: no step frees it. */
  lemma {:induction false} PurgedIsNeverFreed<P>(states: seq<State<P>>, ops: seq<Op<P>>, i: nat, j: nat, id: nat)
    requires IsRun(states, ops) && i <= j < |states| && id in states[i].purged
    ensures id in states[j].purged && id < |states[j].refs| && states[j].refs[id] == 2
    decreases j
  {
    RunKeeps(states, ops, j);
    if i < j {
      PurgedIsNeverFreed(states, ops, i, j - 1, id);
      assert Follows(states[j - 1], ops[j - 1], states[j - 1 + 1]);
    }
    OnePlace(states[j], id);
  }

  predicate Released<P>(s: State<P>, id: nat) {
    id in s.delivered && id < |s.refs| && s.refs[id] == 0
  }

  lemma StaysReleased<P>(s: State<P>, op: Op<P>, id: nat)
    requires Inv(s) && Enabled(s, op) && Released(s, id)
    ensures Released(Step(s, op), id)
  {
    OnePlace(s, id);
    if op.DoPop? && s.q != [] {
      OnePlace(s, s.q[0]);
    }
    hide Ascending, Conserved, Places;
  }

  /** A released element stays freed: it is freed once. */
  lemma {:induction false} FreedStaysFreed<P>(states: seq<State<P>>, ops: seq<Op<P>>, i: nat, j: nat, id: nat)
    requires IsRun(states, ops) && i <= j < |states| && Released(states[i], id)
    ensures Released(states[j], id)
    decreases j
  {
    if i < j {
      FreedStaysFreed(states, ops, i, j - 1, id);
      RunKeeps(states, ops, j - 1);
      assert Follows(states[j - 1], ops[j - 1], states[j - 1 + 1]);
      hide Inv, Released, Step, Enabled;
      StaysReleased(states[j - 1], ops[j - 1], id);
    }
  }

  /**
    An addition purges one element if and only if there is a maximum and the queue is that long: the
    newest with tail drop, else the oldest. Otherwise nothing leaves the queue.
   */
  lemma AdditionPurgesIff<P>(s: State<P>, ptr: P)
    requires Inv(s) && !AddFaults(s)
    ensures var t := Add(s, ptr);
      && t.added == s.added + [ptr] && t.refs == s.refs + [2] && t.delivered == s.delivered
      && t.maxSize == s.maxSize && t.taildrop == s.taildrop
      && if s.maxSize != 0 && |s.q| >= s.maxSize then
           && s.q != []
           && t.purged == s.purged + [if s.taildrop then s.q[|s.q| - 1] else s.q[0]]
           && t.q == (if s.taildrop then s.q[..|s.q| - 1] else s.q[1..]) + [|s.added|]
         else
           t.purged == s.purged && t.q == s.q + [|s.added|]
  {
  }

  /** With a non-negative maximum an addition never faults and never makes a queue exceed it. */
  lemma AdditionIsBounded<P>(s: State<P>, ptr: P)
    requires Inv(s) && s.maxSize >= 0
    ensures !AddFaults(s)
    ensures |Add(s, ptr).q| == |s.q| + (if s.maxSize != 0 && |s.q| >= s.maxSize then 0 else 1)
    ensures s.maxSize > 0 && |s.q| <= s.maxSize ==> |Add(s, ptr).q| <= s.maxSize
  {
  }

  /** Additions fault exactly on an empty queue with a negative maximum. */
  lemma AddFaultsIff<P>(s: State<P>)
    requires Inv(s)
    ensures AddFaults(s) <==> s.maxSize < 0 && s.q == []
  {
  }

  /** Such a state is reached at once by allowing a negative maximum. */
  lemma FaultIsReachable<P>()
    ensures exists states: seq<State<P>>, ops :: IsRun(states, ops) && AddFaults(states[|ops|])
  {
    var s: State<P> := Empty();
    var op := DoSetMax(-1, false);
    var states, ops := [s, Step(s, op)], [op];
    assert Follows(states[0], ops[0], states[1]);
    assert IsRun(states, ops) && AddFaults(states[|ops|]);
  }

  // ---------- The queue object ----------

  class Elm<P> {
    const ptr: P
    var refcnt: int
    var freed: bool

    constructor (ptr: P)
      ensures this.ptr == ptr && refcnt == 2 && !freed
    {
      this.ptr := ptr;
      refcnt := 2;
      freed := false;
    }
  }

  ghost function Ptrs<P>(elms: seq<Elm<P>>): (ps: seq<P>)
    ensures |ps| == |elms| && forall i :: 0 <= i < |elms| ==> ps[i] == elms[i].ptr
  {
    if elms == [] then [] else Ptrs(elms[..|elms| - 1]) + [elms[|elms| - 1].ptr]
  }

  ghost function Refs<P>(elms: seq<Elm<P>>): (rs: seq<int>)
    reads elms
    ensures |rs| == |elms| && forall i :: 0 <= i < |elms| ==> rs[i] == elms[i].refcnt
  {
    if elms == [] then [] else Refs(elms[..|elms| - 1]) + [elms[|elms| - 1].refcnt]
  }

  ghost predicate NoneTwice<P>(elms: seq<Elm<P>>) {
    forall i, j :: 0 <= i < j < |elms| ==> elms[i] != elms[j]
  }

  /** The elements on the queue are those of the given numbers, and exactly the elements at 0 are freed. */
  ghost predicate Shape<P>(q: seq<Elm<P>>, ids: seq<nat>, elms: seq<Elm<P>>)
    reads elms
  {
    NoneTwice(elms) && (forall i :: 0 <= i < |elms| ==> (elms[i].freed <==> elms[i].refcnt == 0)) &&
    |q| == |ids| && forall i :: 0 <= i < |q| ==> ids[i] < |elms| && q[i] == elms[ids[i]]
  }

  lemma ShapeSlices<P>(q: seq<Elm<P>>, ids: seq<nat>, elms: seq<Elm<P>>)
    requires Shape(q, ids, elms) && q != []
    ensures Shape(q[1..], ids[1..], elms) && Shape(q[..|q| - 1], ids[..|ids| - 1], elms)
  {
  }

  lemma EachOnce<P>(elms: seq<Elm<P>>, k: nat)
    requires NoneTwice(elms) && k < |elms|
    ensures forall i :: 0 <= i < |elms| && i != k ==> elms[i] != elms[k]
    ensures elms[k..] == [elms[k]] + elms[k + 1..]
  {
  }

  class Queue<P(!new)> {
    var q: seq<Elm<P>>
    var cnt: int
    var maxSize: int
    var taildrop: bool
    ghost var elms: seq<Elm<P>>
    ghost var ids: seq<nat>
    ghost var delivered: seq<nat>
    ghost var purged: seq<nat>

    ghost function Model(): State<P>
      reads this, elms
    {
      State(ids, cnt, maxSize, taildrop, Ptrs(elms), Refs(elms), delivered, purged)
    }

    ghost predicate Valid()
      reads this, elms
    {
      Inv(Model()) && Shape(q, ids, elms)
    }

    /** rd_fifoq_init. */
    constructor ()
      ensures Valid() && Model() == Empty() && elms == []
      ensures q == [] && maxSize == 0 && !taildrop
    {
      q, cnt, maxSize, taildrop := [], 0, 0, false;
      elms, ids, delivered, purged := [], [], [], [];
      new;
      assert forall id: nat :: Places(Model(), id) == 0;
    }

    /** rd_fifoq_set_max_size. */
    method SetMaxSize(size: int, drop: bool)
      requires Valid()
      modifies this
      ensures Valid() && elms == old(elms)
      ensures Model() == Step(old(Model()), DoSetMax(size, drop))
      ensures maxSize == size && taildrop == drop && q == old(q)
    {
      StepKeeps(Model(), DoSetMax(size, drop));
      hide Inv, Shape;
      maxSize := size;
      taildrop := drop;
    }

    lemma VictimHolds()
      requires Valid() && q != []
      ensures Model().q != [] && |q| == |ids| && Victim(Model()) < |elms|
      ensures elms[Victim(Model())] == (if taildrop then q[|q| - 1] else q[0])
      ensures elms[Victim(Model())].refcnt == 2
    {
      PurgeKeeps(Model());
      hide Inv;
    }

    /** Takes the element that has to go off a full queue. */
    method DropOne() returns (ptr: P)
      requires Valid() && q != []
      modifies this
      ensures elms == old(elms) && Shape(q, ids, elms) && old(Model()).q != [] && Model() == Purge(old(Model()))
      ensures Victim(old(Model())) < |elms| && ptr == elms[Victim(old(Model()))].ptr
      ensures ptr == (if taildrop then old(q)[|old(q)| - 1] else old(q)[0]).ptr
      ensures q == if taildrop then old(q)[..|old(q)| - 1] else old(q)[1..]
    {
      VictimHolds();
      ShapeSlices(q, ids, elms);
      ghost var v := Victim(Model());
      hide Inv, Shape;
      var purge := if taildrop then q[|q| - 1] else q[0];
      cnt := cnt - 1;
      if taildrop {
        q, ids := q[..|q| - 1], ids[..|ids| - 1];
      } else {
        q, ids := q[1..], ids[1..];
      }
      purged := purged + [v];
      if purge.refcnt == 1 {
        assert false;
      }
      ptr := purge.ptr;
    }

    method InsertTail(elm: Elm<P>)
      requires Shape(q, ids, elms) && elm !in elms && elm.refcnt == 2 && !elm.freed
      modifies this
      ensures elms == old(elms) + [elm] && Shape(q, ids, elms) && Model() == Insert(old(Model()), elm.ptr)
      ensures q == old(q) + [elm]
    {
      hide Inv;
      assert (elms + [elm])[..|elms|] == elms;
      q, ids := q + [elm], ids + [|elms|];
      elms := elms + [elm];
      cnt := cnt + 1;
    }

    /** rd_fifoq_add0; the pointer that was pushed out, if any. */
    method Add(ptr: P) returns (pushed: Option<P>)
      requires Valid() && !AddFaults(Model())
      modifies this
      ensures Valid() && Model() == Step(old(Model()), DoAdd(ptr))
      ensures |elms| > 0 && elms[..|elms| - 1] == old(elms) && fresh(elms[|elms| - 1])
      ensures pushed.Some? <==> old(maxSize) != 0 && |old(q)| >= old(maxSize)
      ensures pushed.Some? ==>
        old(q) != [] && pushed.value == (if old(taildrop) then old(q)[|old(q)| - 1] else old(q)[0]).ptr
      ensures q == (if pushed.None? then old(q) else if old(taildrop) then old(q)[..|old(q)| - 1] else old(q)[1..])
                   + [elms[|elms| - 1]]
      ensures elms[|elms| - 1].ptr == ptr && elms[|elms| - 1].refcnt == 2 && !elms[|elms| - 1].freed
    {
      assert cnt == |q|;
      assert q == [] <==> ids == [];
      hide Inv, Shape, Insert, Purge;
      StepKeeps(Model(), DoAdd(ptr));
      pushed := None;
      var elm := new Elm(ptr);
      assert elm !in elms;
      if maxSize != 0 && cnt >= maxSize {
        var out := DropOne();
        pushed := Some(out);
      }
      InsertTail(elm);
      assert elms[..|elms| - 1] == old(elms);
    }

    /** rd_fifoq_elm_release, by the consumer of a popped element. */
    method ConsumerRelease(elm: Elm<P>, ghost id: nat)
      requires Valid() && id in delivered && id < |elms| && elm == elms[id] && elm.refcnt == 1
      modifies elm
      ensures Valid() && Model() == Step(old(Model()), DoRelease(id)) && elm.freed
    {
      ReleaseKeeps(Model(), id);
      hide Inv;
      ReleaseElm(elm, id);
    }

    /** rd_fifoq_elm_release0 on the element of the given number. */
    method ReleaseElm(elm: Elm<P>, ghost id: nat)
      requires Shape(q, ids, elms) && id < |elms| && elm == elms[id] && !elm.freed && elm.refcnt >= 1
      modifies elm
      ensures Shape(q, ids, elms) && Model() == Release(old(Model()), id)
      ensures elm.freed <==> elm.refcnt == 0
    {
      ghost var before := Refs(elms);
      elm.refcnt := elm.refcnt - 1;
      if elm.refcnt <= 0 {
        elm.freed := true;
      }
      assert Refs(elms) == before[id := before[id] - 1];
    }

    method TakeHead() returns (elm: Elm<P>)
      requires Valid() && q != []
      modifies this
      ensures elms == old(elms) && Shape(q, ids, elms) && elm == old(q)[0]
      ensures old(ids) != [] && old(ids)[0] < |elms| && elm == elms[old(ids)[0]] && Refs(elms) == old(Refs(elms))
      ensures q == old(q)[1..]
      ensures Model() == old(Model()).(q := old(ids)[1..], cnt := old(cnt) - 1,
        delivered := old(delivered) + [old(ids)[0]])
    {
      hide Inv;
      elm := q[0];
      cnt := cnt - 1;
      delivered := delivered + [ids[0]];
      q, ids := q[1..], ids[1..];
    }

    /** rd_fifoq_pop0, when it does not wait or its wait is over. */
    method Pop() returns (r: Option<Elm<P>>)
      requires Valid()
      modifies this, elms
      ensures Valid() && elms == old(elms)
      ensures Enabled(old(Model()), DoPop) && Model() == Step(old(Model()), DoPop)
      ensures r == if old(q) == [] then None else Some(old(q)[0])
      ensures q == if old(q) == [] then [] else old(q)[1..]
      ensures r.Some? ==> r.value.refcnt == 1 && !r.value.freed
    {
      hide Inv, Shape;
      EmptyTogether();
      if q == [] {
        return None;
      }
      ghost var id := ids[0];
      PopKeeps(Model());
      var elm := TakeHead();
      if elm.refcnt == 1 {
        assert false;
      }
      HeadIsCounted(elm, id);
      ReleaseElm(elm, id);
      r := Some(elm);
    }

    lemma QueuedAreLive()
      requires Valid()
      ensures forall e :: e in q ==> e in elms && !e.freed
      ensures NoneTwice(q)
    {
      forall i | 0 <= i < |q| ensures q[i] in elms && !q[i].freed {
        assert ids[i] in ids;
        OnePlace(Model(), ids[i]);
      }
      forall i, j | 0 <= i < j < |q| ensures q[i] != q[j] {
        var all := delivered + ids;
        assert all[|delivered| + i] < all[|delivered| + j];
        assert ids[i] < ids[j];
      }
    }

    /** rd_fifoq_destroy: frees what is queued, each element once, whoever else refers to it. */
    method Destroy()
      requires Valid()
      modifies this, q
      ensures q == [] && forall e :: e in old(q) ==> e.freed
    {
      QueuedAreLive();
      hide *;
      ghost var k := 0;
      ghost var all := q;
      while q != []
        invariant k <= |all| && q == all[k..] && all == old(q)
        invariant forall i :: 0 <= i < k ==> all[i].freed
        invariant forall i :: k <= i < |all| ==> !all[i].freed
        decreases |q|
      {
        var elm := q[0];
        q := q[1..];
        EachOnce(all, k);
        assert !elm.freed;
        elm.freed := true;
        k := k + 1;
      }
    }

    lemma EmptyTogether()
      requires Valid()
      ensures q == [] <==> ids == []
    {
    }

    lemma HeadIsCounted(elm: Elm<P>, id: nat)
      requires Shape(q, ids, elms) && id < |elms| && elm == elms[id] && elm.refcnt != 0
      ensures !elm.freed
    {
    }
  }
}

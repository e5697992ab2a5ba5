/**
  rd_timer_t objects and the doubly linked list rd_timers, relinked in place by the LIST macros.
  A ghost sequence says which timers are on the list, in order.
 */
module TimerHeap {
  import opened TimerSpec

  class Rt {
    /** Stands for the timer's address. */
    const id: Id
    const kind: Kind
    var interval: nat
    var next: nat
    var called: int
    var atomic: bool
    var removed: bool
    /** rt_link: the next timer, and the one whose link points here, null for the list head. */
    var after: Rt?
    var before: Rt?

    ghost function Value(): Timer
      reads this
    {
      Timer(kind, interval, next, called, atomic, removed)
    }

    /** rd_timer_init. */
    constructor (id: Id, kind: Kind)
      ensures this.id == id && Value() == Timer(kind, 0, 0, 0, false, false) && after == null && before == null
    {
      this.id, this.kind := id, kind;
      interval, next, called, atomic, removed := 0, 0, 0, false, false;
      after, before := null, null;
    }
  }

  ghost function Ids(l: seq<Rt>): (ids: seq<Id>)
    ensures |ids| == |l| && forall i :: 0 <= i < |l| ==> ids[i] == l[i].id
  {
    seq(|l|, i requires 0 <= i < |l| => l[i].id)
  }

  ghost function Values(live: map<Id, Rt>): map<Id, Timer>
    reads live.Values
  {
    map id | id in live :: live[id].Value()
  }

  ghost predicate NoneTwice(l: seq<Rt>) {
    forall i, j :: 0 <= i < j < |l| ==> l[i] != l[j]
  }

  lemma TakenOut(l: seq<Rt>, k: nat)
    requires NoneTwice(l) && k < |l|
    ensures NoneTwice(l[..k] + l[k + 1..])
    ensures forall r :: r in l[..k] + l[k + 1..] <==> r in l && r != l[k]
  {
  }

  lemma PutIn(l: seq<Rt>, k: nat, rt: Rt)
    requires NoneTwice(l) && k <= |l| && rt !in l
    ensures NoneTwice(l[..k] + [rt] + l[k..])
    ensures forall r :: r in l[..k] + [rt] + l[k..] <==> r in l || r == rt
    ensures [rt] + l == l[..0] + [rt] + l[0..]
    ensures Ids(l[..k] + [rt] + l[k..]) == Ids(l)[..k] + [rt.id] + Ids(l)[k..]
  {
  }

  ghost function AfterOf(l: seq<Rt>, i: nat): Rt? {
    if i + 1 < |l| then l[i + 1] else null
  }

  ghost function BeforeOf(l: seq<Rt>, i: nat): Rt? {
    if 0 < i <= |l| then l[i - 1] else null
  }

  /** The neighbours in a sequence that rt has been put into at place k. */
  lemma Spliced(l: seq<Rt>, k: nat, rt: Rt)
    requires k <= |l|
    ensures var n := l[..k] + [rt] + l[k..];
      && |n| == |l| + 1 && n[k] == rt && (forall i :: 0 <= i < k ==> n[i] == l[i])
      && (forall i {:trigger n[i]} :: k < i < |n| ==> n[i] == l[i - 1])
      && (forall i :: 0 <= i < k - 1 ==> AfterOf(n, i) == AfterOf(l, i)) && (k > 0 ==> AfterOf(n, k - 1) == rt)
      && AfterOf(n, k) == (if k < |l| then l[k] else null)
      && (forall i {:trigger AfterOf(n, i)} :: k < i < |n| ==> AfterOf(n, i) == AfterOf(l, i - 1))
      && (forall i :: 0 <= i < k ==> BeforeOf(n, i) == BeforeOf(l, i))
      && BeforeOf(n, k) == (if k > 0 then l[k - 1] else null)
      && (k < |l| ==> BeforeOf(n, k + 1) == rt)
      && (forall i {:trigger BeforeOf(n, i)} :: k + 1 < i < |n| ==> BeforeOf(n, i) == BeforeOf(l, i - 1))
  {
  }

  /** The timers of l are linked in this order, starting at first. */
  ghost predicate Chain(first: Rt?, l: seq<Rt>)
    reads l
  {
    (first == if l == [] then null else l[0]) &&
    NoneTwice(l) &&
    forall i :: 0 <= i < |l| ==> LinkedAt(l, i)
  }

  ghost predicate LinkedAt(l: seq<Rt>, i: nat)
    requires i < |l|
    reads l[i]
  {
    l[i].after == AfterOf(l, i) && l[i].before == BeforeOf(l, i)
  }

  ghost predicate Named(live: map<Id, Rt>) {
    forall id :: id in live ==> live[id].id == id
  }

  ghost predicate AllLive(live: map<Id, Rt>, l: seq<Rt>) {
    forall rt :: rt in l ==> rt.id in live && live[rt.id] == rt
  }

  class RtList {
    var first: Rt?
    ghost var list: seq<Rt>

    ghost predicate Valid()
      reads this, list
    {
      Chain(first, list)
    }

    constructor ()
      ensures Valid() && list == []
    {
      first, list := null, [];
    }

    /** LIST_REMOVE. */
    method Remove(rt: Rt, ghost k: nat)
      requires Valid() && k < |list| && rt == list[k]
      modifies this, list
      ensures Valid() && list == old(list)[..k] + old(list)[k + 1..]
      ensures forall r :: r in old(list) ==> r.Value() == old(r.Value())
    {
      hide NoneTwice, Chain;
      Neighbours(first, list, k);
      TakenOut(list, k);
      if rt.after != null {
        rt.after.before := rt.before;
      }
      if rt.before == null {
        first := rt.after;
      } else {
        rt.before.after := rt.after;
      }
      ghost var l := list;
      list := l[..k] + l[k + 1..];
      forall i | 0 <= i < |list| ensures LinkedAt(list, i) {
        assert old(LinkedAt(l, if i < k then i else i + 1));
      }
      MakesChain(first, list);
    }

    /** LIST_INSERT_HEAD. */
    method InsertHead(rt: Rt)
      requires Valid() && rt !in list
      modifies this, list, rt
      ensures Valid() && list == [rt] + old(list)
      ensures forall r :: r in list ==> r.Value() == old(r.Value())
    {
      hide Chain, NoneTwice, AfterOf, BeforeOf;
      ghost var l := list;
      Links(first, l);
      Ends(l);
      PutIn(l, 0, rt);
      rt.after := first;
      if first != null {
        Neighbours(first, l, 0);
        first.before := rt;
      }
      first := rt;
      rt.before := null;
      list := [rt] + l;
      InsertedChain(first, l, 0, rt);
    }

    /** LIST_INSERT_BEFORE. */
    method InsertBefore(tmp: Rt, rt: Rt, ghost k: nat)
      requires Valid() && rt !in list && k < |list| && tmp == list[k]
      modifies this, list, rt
      ensures Valid() && list == old(list)[..k] + [rt] + old(list)[k..]
      ensures forall r :: r in list ==> r.Value() == old(r.Value())
    {
      hide Chain, NoneTwice, AfterOf, BeforeOf;
      ghost var l := list;
      Links(first, l);
      Neighbours(first, l, k);
      PutIn(l, k, rt);
      rt.before := tmp.before;
      rt.after := tmp;
      if tmp.before == null {
        first := rt;
      } else {
        tmp.before.after := rt;
      }
      tmp.before := rt;
      list := l[..k] + [rt] + l[k..];
      InsertedChain(first, l, k, rt);
    }

    /** LIST_INSERT_AFTER. */
    method InsertAfter(tmp: Rt, rt: Rt, ghost k: nat)
      requires Valid() && rt !in list && k < |list| && tmp == list[k]
      modifies this, list, rt
      ensures Valid() && list == old(list)[..k + 1] + [rt] + old(list)[k + 1..]
      ensures forall r :: r in list ==> r.Value() == old(r.Value())
    {
      hide Chain, NoneTwice, AfterOf, BeforeOf;
      ghost var l := list;
      Links(first, l);
      Neighbours(first, l, k);
      PutIn(l, k + 1, rt);
      rt.after := tmp.after;
      if tmp.after != null {
        tmp.after.before := rt;
      }
      tmp.after := rt;
      rt.before := tmp;
      list := l[..k + 1] + [rt] + l[k + 1..];
      InsertedChain(first, l, k + 1, rt);
    }

    /** The loop of LIST_INSERT_SORTED with rd_timer_cmp: before or behind which timer to insert. */
    method Place(rt: Rt, ghost h: map<Id, Timer>) returns (tmp: Rt, here: bool, ghost k: nat)
      requires Valid() && first != null && Next(h, rt.id) == rt.next
      requires forall r :: r in list ==> Next(h, r.id) == r.next
      ensures k < |list| && tmp == list[k]
      ensures here ==> TimerSpec.InsertSorted(h, Ids(list), rt.id) == Ids(list)[..k] + [rt.id] + Ids(list)[k..]
      ensures !here ==> TimerSpec.InsertSorted(h, Ids(list), rt.id) == Ids(list)[..k + 1] + [rt.id] + Ids(list)[k + 1..]
    {
      hide TimerSpec.InsertSorted, Cmp, Next, Chain, NoneTwice, Ids, LinkedAt;
      ghost var ids := Ids(list);
      ChainStarts(first, list);
      assert ids[0..] == ids && ids[..0] == [];
      tmp, k := first, 0;
      while true
        invariant k < |list| && tmp == list[k]
        invariant TimerSpec.InsertSorted(h, ids, rt.id) == ids[..k] + TimerSpec.InsertSorted(h, ids[k..], rt.id)
        decreases |list| - k
      {
        Neighbours(first, list, k);
        SortedStep(h, ids, k, rt.id);
        assert Next(h, tmp.id) == tmp.next;
        if Cmp(rt.next, tmp.next) <= 0 {
          return tmp, true, k;
        }
        if tmp.after == null {
          return tmp, false, k;
        }
        tmp := tmp.after;
        k := k + 1;
      }
    }

    /** LIST_INSERT_SORTED. */
    method InsertSorted(rt: Rt, ghost h: map<Id, Timer>)
      requires Valid() && rt !in list && Next(h, rt.id) == rt.next
      requires forall r :: r in list ==> Next(h, r.id) == r.next
      modifies this, list, rt
      ensures Valid() && Ids(list) == TimerSpec.InsertSorted(h, old(Ids(list)), rt.id)
      ensures forall r :: r in list <==> r in old(list) || r == rt
      ensures forall r :: r in list ==> r.Value() == old(r.Value())
    {
      hide TimerSpec.InsertSorted, Cmp, Next, Chain, Ids, LinkedAt, NoneTwice;
      ChainStarts(first, list);
      ghost var l, ids := list, Ids(list);
      if first == null {
        InsertOne(h, ids, rt.id);
        PutIn(list, 0, rt);
        InsertHead(rt);
        assert Ids(list) == [rt.id];
        return;
      }
      var tmp, here;
      ghost var k;
      tmp, here, k := Place(rt, h);
      PutIn(l, if here then k else k + 1, rt);
      if here {
        InsertBefore(tmp, rt, k);
      } else {
        InsertAfter(tmp, rt, k);
      }
    }
  }

  lemma InsertOne(h: map<Id, Timer>, l: seq<Id>, id: Id)
    ensures l == [] ==> TimerSpec.InsertSorted(h, l, id) == [id]
    ensures l != [] && Cmp(Next(h, id), Next(h, l[0])) <= 0 ==> TimerSpec.InsertSorted(h, l, id) == [id] + l
    ensures l != [] && Cmp(Next(h, id), Next(h, l[0])) > 0 ==>
      TimerSpec.InsertSorted(h, l, id) == [l[0]] + TimerSpec.InsertSorted(h, l[1..], id)
  {
    hide Cmp, Next;
  }

  lemma SortedStep(h: map<Id, Timer>, ids: seq<Id>, k: nat, id: Id)
    requires k < |ids|
    requires TimerSpec.InsertSorted(h, ids, id) == ids[..k] + TimerSpec.InsertSorted(h, ids[k..], id)
    ensures Cmp(Next(h, id), Next(h, ids[k])) <= 0 ==> TimerSpec.InsertSorted(h, ids, id) == ids[..k] + [id] + ids[k..]
    ensures Cmp(Next(h, id), Next(h, ids[k])) > 0 ==>
      TimerSpec.InsertSorted(h, ids, id) == ids[..k + 1] + TimerSpec.InsertSorted(h, ids[k + 1..], id)
    ensures Cmp(Next(h, id), Next(h, ids[k])) > 0 && k + 1 == |ids| ==>
      TimerSpec.InsertSorted(h, ids, id) == ids[..k + 1] + [id] + ids[k + 1..]
  {
    hide *;
    InsertOne(h, ids[k..], id);
    InsertOne(h, ids[k + 1..], id);
    assert ids[k..][0] == ids[k] && ids[k..][1..] == ids[k + 1..];
    Regroup(ids[..k], ids[k], TimerSpec.InsertSorted(h, ids[k + 1..], id), id, ids[k..]);
    assert ids[..k + 1] == ids[..k] + [ids[k]];
  }

  lemma Regroup<T>(a: seq<T>, x: T, b: seq<T>, y: T, c: seq<T>)
    ensures a + ([x] + b) == (a + [x]) + b && a + ([y] + c) == a + [y] + c && a + [x] + [y] + [] == a + [x] + [y]
  {
  }

  lemma ChainStarts(first: Rt?, l: seq<Rt>)
    requires Chain(first, l)
    ensures NoneTwice(l) && (first == if l == [] then null else l[0])
  {
  }

  /** What the links of a timer on the list and of its neighbours are, and that these are three timers. */
  lemma Neighbours(first: Rt?, l: seq<Rt>, k: nat)
    requires Chain(first, l) && k < |l|
    ensures NoneTwice(l) && first == l[0]
    ensures l[k].after == (if k + 1 < |l| then l[k + 1] else null) && l[k].before == (if k > 0 then l[k - 1] else null)
    ensures forall i :: 0 <= i < |l| && i != k ==> l[i] != l[k]
    ensures k > 0 ==> forall i :: 0 <= i < |l| && i != k - 1 ==> l[i] != l[k - 1]
    ensures k + 1 < |l| ==> forall i :: 0 <= i < |l| && i != k + 1 ==> l[i] != l[k + 1]
    ensures forall i :: 0 <= i < |l| ==> LinkedAt(l, i)
  {
    assert LinkedAt(l, k);
  }

  lemma Ends(l: seq<Rt>)
    ensures BeforeOf(l, 0) == null && (l != [] ==> AfterOf(l, |l| - 1) == null)
  {
  }

  /** The links that make a chain of l with rt put in at place k. */
  lemma InsertedChain(first: Rt?, l: seq<Rt>, k: nat, rt: Rt)
    requires NoneTwice(l) && rt !in l && k <= |l| && first == (if k == 0 then rt else l[0])
    requires forall i {:trigger l[i]} :: 0 <= i < |l| ==>
      l[i].after == (if i + 1 == k then rt else AfterOf(l, i)) && l[i].before == (if i == k then rt else BeforeOf(l, i))
    requires rt.after == (if k < |l| then l[k] else null) && rt.before == (if k > 0 then l[k - 1] else null)
    ensures Chain(first, l[..k] + [rt] + l[k..])
    ensures k == 0 ==> Chain(first, [rt] + l)
  {
    hide Chain, NoneTwice, AfterOf, BeforeOf;
    var n := l[..k] + [rt] + l[k..];
    Spliced(l, k, rt);
    PutIn(l, k, rt);
    assert k == 0 ==> n == [rt] + l;
    Relink(first, n);
  }

  // A chain is a matter of its links alone: between these two lemmas other fields may change.

  lemma Links(first: Rt?, l: seq<Rt>)
    requires Chain(first, l)
    ensures NoneTwice(l) && (first == if l == [] then null else l[0])
    ensures forall i {:trigger l[i]} :: 0 <= i < |l| ==> l[i].after == AfterOf(l, i) && l[i].before == BeforeOf(l, i)
  {
    hide NoneTwice;
    forall i | 0 <= i < |l| ensures l[i].after == AfterOf(l, i) && l[i].before == BeforeOf(l, i) {
      assert LinkedAt(l, i);
    }
  }

  lemma Relink(first: Rt?, l: seq<Rt>)
    requires NoneTwice(l) && (first == if l == [] then null else l[0])
    requires forall i {:trigger l[i]} :: 0 <= i < |l| ==> l[i].after == AfterOf(l, i) && l[i].before == BeforeOf(l, i)
    ensures Chain(first, l)
  {
    hide NoneTwice;
    assert forall i :: 0 <= i < |l| ==> LinkedAt(l, i);
  }

  lemma MakesChain(first: Rt?, l: seq<Rt>)
    requires NoneTwice(l) && (first == if l == [] then null else l[0]) && forall i :: 0 <= i < |l| ==> LinkedAt(l, i)
    ensures Chain(first, l)
  {
  }
}

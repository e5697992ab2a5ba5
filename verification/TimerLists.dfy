/** The armed list on its own: removal, sorted insertion, and exactly when the 32-bit comparison sorts. */
module TimerLists {
  import opened TimerSpec

  ghost predicate NoDup(l: seq<Id>) {
    l != [] ==> l[0] !in l[1..] && NoDup(l[1..])
  }

  ghost predicate NoneBefore(h: map<Id, Timer>, l: seq<Id>, d: nat) {
    forall x :: x in l ==> d <= Next(h, x)
  }

  /** Deadlines ascend. */
  ghost predicate Sorted(h: map<Id, Timer>, l: seq<Id>) {
    l != [] ==> NoneBefore(h, l[1..], Next(h, l[0])) && Sorted(h, l[1..])
  }

  lemma {:induction false} SortedByHead(h: map<Id, Timer>, l: seq<Id>)
    requires Sorted(h, l) && l != []
    ensures NoneBefore(h, l, Next(h, l[0]))
  {
  }

  lemma {:induction false} SortedFrame(h: map<Id, Timer>, h': map<Id, Timer>, l: seq<Id>)
    requires Sorted(h, l) && forall x :: x in l ==> Next(h', x) == Next(h, x)
    ensures Sorted(h', l)
  {
    if l != [] {
      SortedFrame(h, h', l[1..]);
      assert l[0] in l;
    }
  }

  lemma {:induction false} WithoutMembers(l: seq<Id>, id: Id)
    requires NoDup(l)
    ensures NoDup(Without(l, id))
    ensures forall x :: x in Without(l, id) <==> x in l && x != id
    ensures id !in l ==> Without(l, id) == l
    ensures l != [] && l[0] != id ==> Without(l, id) != [] && Without(l, id)[0] == l[0]
    ensures |Without(l, id)| <= |l|
  {
    if l != [] && l[0] != id {
      WithoutMembers(l[1..], id);
      assert Without(l, id)[1..] == Without(l[1..], id);
    }
  }

  lemma {:induction false} WithoutSorted(h: map<Id, Timer>, l: seq<Id>, id: Id)
    requires NoDup(l) && Sorted(h, l)
    ensures Sorted(h, Without(l, id))
  {
    if l != [] && l[0] != id {
      WithoutMembers(l[1..], id);
      WithoutSorted(h, l[1..], id);
      assert Without(l, id)[1..] == Without(l[1..], id);
    }
  }

  lemma {:induction false} InsertMembers(h: map<Id, Timer>, l: seq<Id>, id: Id)
    requires NoDup(l) && id !in l
    ensures NoDup(InsertSorted(h, l, id))
    ensures forall x :: x in InsertSorted(h, l, id) <==> x in l || x == id
    ensures InsertSorted(h, l, id) != []
    ensures InsertSorted(h, l, id)[0] == id || (l != [] && InsertSorted(h, l, id)[0] == l[0])
    ensures |InsertSorted(h, l, id)| == |l| + 1
  {
    if l == [] {
    } else if Cmp(Next(h, id), Next(h, l[0])) <= 0 {
      assert ([id] + l)[1..] == l;
    } else {
      InsertMembers(h, l[1..], id);
      assert InsertSorted(h, l, id)[1..] == InsertSorted(h, l[1..], id);
    }
  }

  /** Within the window the cut-down difference is the difference. */
  lemma CmpInWindow(a: nat, b: nat)
    requires a - b < TWO31 && b - a <= TWO31
    ensures Cmp(a, b) == a - b
  {
  }

  /** On its way to where d belongs, the comparison is positive before that place and not at it. */
  ghost predicate Faithful(h: map<Id, Timer>, l: seq<Id>, d: nat) {
    l != [] ==>
      if Next(h, l[0]) < d then Cmp(d, Next(h, l[0])) > 0 && Faithful(h, l[1..], d)
      else Cmp(d, Next(h, l[0])) <= 0
  }

  /** LIST_INSERT_SORTED keeps a sorted list sorted if and only if those comparisons are faithful. */
  lemma {:induction false} SortsIffFaithful(h: map<Id, Timer>, l: seq<Id>, id: Id)
    requires Sorted(h, l) && NoDup(l) && id !in l
    ensures Sorted(h, InsertSorted(h, l, id)) <==> Faithful(h, l, Next(h, id))
  {
    if l != [] {
      var d, rest, r := Next(h, id), l[1..], InsertSorted(h, l, id);
      if Cmp(d, Next(h, l[0])) <= 0 {
        assert r[1..] == l && l[0] in l;
        SortedByHead(h, l);
      } else {
        assert r[1..] == InsertSorted(h, rest, id);
        SortsIffFaithful(h, rest, id);
        InsertMembers(h, rest, id);
        assert id in r[1..];
      }
    }
  }

  /** A list that is sorted after an insertion was sorted before. */
  lemma {:induction false} SortedBefore(h: map<Id, Timer>, l: seq<Id>, id: Id)
    requires NoDup(l) && id !in l && Sorted(h, InsertSorted(h, l, id))
    ensures Sorted(h, l)
  {
    if l != [] {
      var r := InsertSorted(h, l, id);
      if Cmp(Next(h, id), Next(h, l[0])) <= 0 {
        assert r[1..] == l;
      } else {
        assert r[1..] == InsertSorted(h, l[1..], id);
        SortedBefore(h, l[1..], id);
        InsertMembers(h, l[1..], id);
      }
    }
  }

  lemma {:induction false} FaithfulFrame(h: map<Id, Timer>, h': map<Id, Timer>, l: seq<Id>, d: nat)
    requires forall x :: x in l ==> Next(h', x) == Next(h, x)
    ensures Faithful(h', l, d) <==> Faithful(h, l, d)
  {
    if l != [] {
      assert l[0] in l;
      FaithfulFrame(h, h', l[1..], d);
    }
  }

  lemma {:induction false} WindowIsFaithful(h: map<Id, Timer>, l: seq<Id>, d: nat)
    requires forall x :: x in l ==> d - Next(h, x) < TWO31 && Next(h, x) - d < TWO31
    ensures Faithful(h, l, d)
  {
    if l != [] {
      assert l[0] in l;
      CmpInWindow(d, Next(h, l[0]));
      WindowIsFaithful(h, l[1..], d);
    }
  }

  /** A deadline later than all armed ones is put in its place if and only if it is less than 2^31 after the first. */
  lemma {:induction false} LatestSortsIff(h: map<Id, Timer>, l: seq<Id>, id: Id)
    requires l != [] && Sorted(h, l) && NoDup(l) && id !in l
    requires forall x :: x in l ==> 0 < Next(h, id) - Next(h, x) < TWO32
    ensures Sorted(h, InsertSorted(h, l, id)) <==> Next(h, id) - Next(h, l[0]) < TWO31
  {
    SortsIffFaithful(h, l, id);
    SortedByHead(h, l);
    assert l[0] in l;
    if Next(h, id) - Next(h, l[0]) < TWO31 {
      WindowIsFaithful(h, l, Next(h, id));
    }
  }

  /** A timer 36 minutes away is put before one that is a second away, which then does not fire when due. */
  lemma FarTimerHidesNearOne(now: nat)
    ensures var h := map[0 := Timer(Once, 1000, Deadline(now, 1000), 0, false, false),
                         1 := Timer(Once, 2160000, Deadline(now, 2160000), 0, false, false)];
            && InsertSorted(h, [0], 1) == [1, 0] && !Sorted(h, [1, 0])
            && Fire(INITIAL.(heap := h, armed := [1, 0]), now + 2000000).1 == []
  {
    var h := map[0 := Timer(Once, 1000, Deadline(now, 1000), 0, false, false),
                 1 := Timer(Once, 2160000, Deadline(now, 2160000), 0, false, false)];
    assert Next(h, 0) == now + 1000000 && Next(h, 1) == now + 2160000000;
    assert Cmp(now + 2160000000, now + 1000000) == 2159000000 - TWO32;
    assert 0 in [1, 0][1..];
  }
}

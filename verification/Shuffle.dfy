/**
  rdrand.c and rdrand.h: the shuffle, over every sequence of values that rand() may return.
 */
module Shuffle {

  // ---------- rd_jitter ----------

  /** rd_jitter, for the value r that rand() returned. */
  function Jitter(low: int, high: int, r: nat): int
    requires high >= 0
  {
    low + r % (high + 1)
  }

  ghost predicate Reaches(low: int, high: int, j: int)
    requires high >= 0
  {
    exists r: nat :: Jitter(low, high, r) == j
  }

  /** What is promised: all of low..high and nothing else. */
  ghost predicate CoversItsRange(low: int, high: int)
    requires high >= 0
  {
    forall j :: Reaches(low, high, j) <==> low <= j <= high
  }

  lemma JitterReaches(low: int, high: int, j: int)
    requires high >= 0
    ensures Reaches(low, high, j) <==> low <= j <= low + high
  {
    if low <= j <= low + high {
      var r: nat := j - low;
      assert r % (high + 1) == r;
      assert Jitter(low, high, r) == j;
    }
  }

  /** The result is the lower bound plus the remainder that division of the draw leaves. */
  lemma JitterIsRemainder(low: int, high: int, r: nat) returns (q: nat)
    requires high >= 0
    ensures low <= Jitter(low, high, r) <= low + high
    ensures r == q * (high + 1) + (Jitter(low, high, r) - low)
  {
    q := r / (high + 1);
  }

  lemma Spread(d: int, n: nat)
    ensures d >= 1 ==> d * n >= n
    ensures d <= -1 ==> d * n + n <= 0
  {
  }

  lemma SameRemainder(j: int, r: int, k: int, n: nat)
    requires 0 <= j < n && r == j + k * n
    ensures r % n == j && r / n == k
  {
    Spread(r / n - k, n);
    assert (r / n - k) * n == r / n * n - k * n;
  }

  lemma OneInBlock(n: nat, a: nat, j: nat) returns (r: nat)
    requires j < n
    ensures a <= r < a + n && r % n == j
  {
    r := a + (j - a) % n;
    var k := (j - a) / n;
    assert r == j + (-k) * n;
    SameRemainder(j, r, -k, n);
  }

  lemma AtMostOneInBlock(n: nat, q: nat, r: nat)
    requires 0 < n && q % n == r % n && q - r < n && r - q < n
    ensures q == r
  {
    Spread(q / n - r / n, n);
    assert (q / n - r / n) * n == q / n * n - r / n * n;
  }

  /** Of any high + 1 consecutive draws exactly one gives j. */
  lemma JitterOnce(low: int, high: int, a: nat, j: int) returns (r: nat)
    requires high >= 0 && low <= j <= low + high
    ensures a <= r <= a + high && Jitter(low, high, r) == j
    ensures forall q: nat :: a <= q <= a + high && Jitter(low, high, q) == j ==> q == r
  {
    r := OneInBlock(high + 1, a, j - low);
    forall q: nat | a <= q <= a + high && Jitter(low, high, q) == j ensures q == r {
      AtMostOneInBlock(high + 1, q, r);
    }
  }

  /** The promise is kept exactly for a lower bound of 0. */
  lemma JitterRangeIff(low: int, high: int)
    requires 0 <= high && low <= high
    ensures CoversItsRange(low, high) <==> low == 0
  {
    JitterReaches(low, high, low + high);
    JitterReaches(low, high, high);
    if low == 0 {
      forall j ensures Reaches(low, high, j) <==> low <= j <= high {
        JitterReaches(low, high, j);
      }
    }
  }

  // ---------- rd_array_shuffle ----------

  function Swap<T>(s: seq<T>, i: nat, j: nat): (t: seq<T>)
    requires i < |s| && j < |s|
    ensures |t| == |s| && multiset(t) == multiset(s)
  {
    s[i := s[j]][j := s[i]]
  }

  /** One choice for each step i = n - 1 down to 1, the choice of step i within 0..i. */
  predicate Choices(js: seq<nat>, n: nat)
    decreases n
  {
    if n <= 1 then js == [] else js != [] && js[0] < n && Choices(js[1..], n - 1)
  }

  /** The first n elements shuffled by the given choices; the others stay. */
  function Shuffled<T>(s: seq<T>, n: nat, js: seq<nat>): (t: seq<T>)
    requires n <= |s| && Choices(js, n)
    ensures |t| == |s|
    decreases n
  {
    if n <= 1 then s else Shuffled(Swap(s, n - 1, js[0]), n - 1, js[1..])
  }

  /** The choices that the values of rand() amount to. */
  function Drawn(rands: seq<nat>, n: nat): (js: seq<nat>)
    requires |rands| + 1 >= n
    ensures Choices(js, n)
    decreases n
  {
    if n <= 1 then [] else [Jitter(0, n - 1, rands[0])] + Drawn(rands[1..], n - 1)
  }

  /** What is left to do before step i. */
  function Later<T>(s: seq<T>, rands: seq<nat>, i: int): seq<T>
    requires -1 <= i < |s| <= |rands| + 1 && (i == -1 ==> s == [])
  {
    Shuffled(s, i + 1, Drawn(rands[|s| - 1 - i..], i + 1))
  }

  lemma LaterStep<T>(s: seq<T>, rands: seq<nat>, i: nat)
    requires 1 <= i < |s| <= |rands| + 1
    ensures Later(s, rands, i) == Later(Swap(s, i, Jitter(0, i, rands[|s| - 1 - i])), rands, i - 1)
  {
    hide Swap, Jitter;
    var k := |s| - 1 - i;
    assert rands[k..][0] == rands[k] && rands[k..][1..] == rands[k + 1..];
  }

  lemma LaterEnds<T>(s: seq<T>, rands: seq<nat>, i: int)
    requires -1 <= i < |s| <= |rands| + 1 && (i == -1 ==> s == [])
    ensures i == |s| - 1 ==> Later(s, rands, i) == Shuffled(s, |s|, Drawn(rands, |s|))
    ensures i <= 0 ==> Later(s, rands, i) == s
  {
    hide Drawn;
    assert rands[0..] == rands;
  }

  lemma SwapSteps<T>(s: seq<T>, i: nat, j: nat)
    requires i < |s| && j < |s|
    ensures Swap(s, i, i) == s
    ensures Swap(s, i, j)[i] == s[j]
  {
  }

  /** The three copies through a buffer. */
  method Exchange<T>(a: array<T>, i: nat, j: nat)
    requires i < a.Length && j < a.Length
    modifies a
    ensures a[..] == Swap(old(a[..]), i, j)
  {
    var tmp := a[i];
    a[i] := a[j];
    a[j] := tmp;
  }

  /** rd_array_shuffle; rands are the values rand() returns in turn. */
  method ShuffleArray<T>(a: array<T>, rands: seq<nat>)
    requires |rands| + 1 >= a.Length
    modifies a
    ensures a[..] == Shuffled(old(a[..]), a.Length, Drawn(rands, a.Length))
    ensures multiset(a[..]) == multiset(old(a[..]))
  {
    hide *;
    ShuffledKeeps(a[..], a.Length, Drawn(rands, a.Length));
    LaterEnds(a[..], rands, a.Length - 1);
    var i := a.Length - 1;
    while i > 0
      invariant -1 <= i < a.Length && (i == -1 ==> a.Length == 0)
      invariant Later(a[..], rands, i) == Shuffled(old(a[..]), a.Length, Drawn(rands, a.Length))
    {
      var j := Jitter(0, i, rands[a.Length - 1 - i]);
      JitterBound(i, rands[a.Length - 1 - i]);
      LaterStep(a[..], rands, i);
      SwapSteps(a[..], i, j);
      if i != j {
        Exchange(a, i, j);
      }
      i := i - 1;
    }
    LaterEnds(a[..], rands, i);
  }

  lemma JitterBound(high: int, r: nat)
    requires high >= 0
    ensures 0 <= Jitter(0, high, r) <= high
  {
  }

  // ---------- Every permutation, from exactly one sequence of choices ----------

  lemma {:induction false} ShuffledKeeps<T>(s: seq<T>, n: nat, js: seq<nat>)
    requires n <= |s| && Choices(js, n)
    ensures multiset(Shuffled(s, n, js)) == multiset(s)
    ensures forall k :: n <= k < |s| ==> Shuffled(s, n, js)[k] == s[k]
    ensures n == 1 ==> Shuffled(s, n, js)[0] == s[0]
    decreases n
  {
    if n > 1 {
      ShuffledKeeps(Swap(s, n - 1, js[0]), n - 1, js[1..]);
    }
  }

  predicate Distinct<T(==)>(s: seq<T>) {
    forall i, j :: 0 <= i < j < |s| ==> s[i] != s[j]
  }

  lemma PlacedLast<T>(s: seq<T>, n: nat, js: seq<nat>)
    requires 2 <= n <= |s| && Choices(js, n)
    ensures Shuffled(s, n, js) == Shuffled(Swap(s, n - 1, js[0]), n - 1, js[1..])
    ensures Shuffled(s, n, js)[n - 1] == s[js[0]]
  {
    hide Distinct, Swap;
    SwapSteps(s, n - 1, js[0]);
    ShuffledKeeps(Swap(s, n - 1, js[0]), n - 1, js[1..]);
  }

  lemma SwapDistinct<T>(s: seq<T>, i: nat, j: nat)
    requires i < |s| && j < |s| && Distinct(s)
    ensures Distinct(Swap(s, i, j))
  {
  }

  /** Different choices give different arrangements of distinct elements. */
  lemma {:induction false} ChoicesDiffer<T>(s: seq<T>, n: nat, js: seq<nat>, ks: seq<nat>)
    requires n <= |s| && Choices(js, n) && Choices(ks, n) && Distinct(s)
    requires Shuffled(s, n, js) == Shuffled(s, n, ks)
    ensures js == ks
    decreases n
  {
    hide Shuffled, Swap;
    if n > 1 {
      PlacedLast(s, n, js);
      PlacedLast(s, n, ks);
      assert js[0] == ks[0];
      SwapDistinct(s, n - 1, js[0]);
      hide Distinct;
      ChoicesDiffer(Swap(s, n - 1, js[0]), n - 1, js[1..], ks[1..]);
    }
  }

  lemma SamePrefix<T>(s: seq<T>, t: seq<T>, n: nat)
    requires 1 <= n <= |s| == |t| && t[n..] == s[n..] && multiset(t) == multiset(s)
    ensures exists j :: 0 <= j < n && s[j] == t[n - 1]
  {
    assert s == s[..n] + s[n..] && t == t[..n] + t[n..];
    var x := t[n - 1];
    assert t[..n][n - 1] == x;
    assert multiset(s[..n])[x] == multiset(s)[x] - multiset(s[n..])[x];
    assert multiset(t[..n])[x] == multiset(t)[x] - multiset(t[n..])[x];
    assert x in multiset(s[..n]);
    assert x in s[..n];
  }

  lemma SwapPlaces<T>(s: seq<T>, t: seq<T>, n: nat, j: nat)
    requires 1 <= n <= |s| == |t| && t[n..] == s[n..] && j < n && s[j] == t[n - 1]
    ensures Swap(s, n - 1, j)[n - 1..] == t[n - 1..]
  {
    assert Swap(s, n - 1, j)[n - 1..] == [s[j]] + s[n..];
    assert t[n - 1..] == [t[n - 1]] + t[n..];
  }

  lemma ShuffledStep<T>(s: seq<T>, n: nat, j: nat, rest: seq<nat>)
    requires 1 < n <= |s| && Choices(rest, n - 1) && j < n
    ensures Choices([j] + rest, n) && Shuffled(s, n, [j] + rest) == Shuffled(Swap(s, n - 1, j), n - 1, rest)
  {
    hide Swap;
    assert ([j] + rest)[1..] == rest;
  }

  lemma NothingShuffled<T>(s: seq<T>, n: nat)
    requires n <= 1 && n <= |s|
    ensures Choices([], n) && Shuffled(s, n, []) == s
  {
  }

  lemma SameFrom<T>(s: seq<T>, t: seq<T>, n: nat)
    requires n <= 1 && n <= |s| == |t| && t[n..] == s[n..] && (n == 1 ==> s[0] == t[0])
    ensures s == t
  {
    assert s == s[..n] + s[n..] && t == t[..n] + t[n..];
  }

  /** Every arrangement that agrees from n on is reached. */
  lemma {:induction false} ChoicesReach<T>(s: seq<T>, n: nat, t: seq<T>) returns (js: seq<nat>)
    requires n <= |s| == |t| && t[n..] == s[n..] && multiset(t) == multiset(s)
    ensures Choices(js, n) && Shuffled(s, n, js) == t
    decreases n
  {
    hide Shuffled, Choices, Swap;
    if n <= 1 {
      js := [];
      if n == 1 {
        SamePrefix(s, t, n);
      }
      NothingShuffled(s, n);
      SameFrom(s, t, n);
    } else {
      SamePrefix(s, t, n);
      var j :| 0 <= j < n && s[j] == t[n - 1];
      SwapPlaces(s, t, n, j);
      var rest := ChoicesReach(Swap(s, n - 1, j), n - 1, t);
      js := [j] + rest;
      ShuffledStep(s, n, j, rest);
    }
  }

  /**
    The arrangements of a sequence are exactly its shuffles, and for distinct elements each comes from one
    choice sequence.
   */
  lemma ShuffleIsUniform<T>(s: seq<T>, t: seq<T>)
    ensures multiset(t) == multiset(s) <==> exists js :: Choices(js, |s|) && Shuffled(s, |s|, js) == t
    ensures Distinct(s) ==> forall js, ks ::
      Choices(js, |s|) && Choices(ks, |s|) && Shuffled(s, |s|, js) == Shuffled(s, |s|, ks) ==> js == ks
  {
    if multiset(t) == multiset(s) {
      assert |multiset(t)| == |t| && |multiset(s)| == |s|;
      var js := ChoicesReach(s, |s|, t);
    }
    forall js | Choices(js, |s|) && Shuffled(s, |s|, js) == t ensures multiset(t) == multiset(s) {
      ShuffledKeeps(s, |s|, js);
    }
    if Distinct(s) {
      forall js, ks | Choices(js, |s|) && Choices(ks, |s|) && Shuffled(s, |s|, js) == Shuffled(s, |s|, ks)
        ensures js == ks
      {
        ChoicesDiffer(s, |s|, js, ks);
      }
    }
  }

  /** Three elements and the draws 1000 and 1001. */
  lemma ThreeShuffled()
    ensures Drawn([1000, 1001], 3) == [1, 1]
    ensures Shuffled([1, 2, 3], 3, [1, 1]) == [1, 3, 2]
  {
    assert [1000, 1001][1..] == [1001];
    assert [1, 1][1..] == [1];
    assert Swap([1, 2, 3], 2, 1) == [1, 3, 2];
    assert Swap([1, 3, 2], 1, 1) == [1, 3, 2];
    assert Shuffled([1, 3, 2], 2, [1]) == [1, 3, 2];
  }
}

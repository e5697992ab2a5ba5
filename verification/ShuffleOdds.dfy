/** How many draws of rand() lead to each choice, to each sequence of choices, and to each arrangement. */
module ShuffleOdds {
  import opened Shuffle

  // ---------- Counting ----------

  ghost function Below(n: nat): (b: set<nat>)
    ensures |b| == n && forall j :: j in b <==> 0 <= j < n
  {
    if n == 0 then {} else Below(n - 1) + {n - 1}
  }

  lemma NextQuotient(m: nat, n: nat)
    requires n > 0
    ensures m % n < n - 1 ==> (m + 1) / n == m / n && (m + 1) % n == m % n + 1
    ensures m % n == n - 1 ==> (m + 1) / n == m / n + 1 && (m + 1) % n == 0
  {
    var q := m / n;
    if m % n < n - 1 {
      SameRemainder(m % n + 1, m + 1, q, n);
    } else {
      assert m + 1 == 0 + (q + 1) * n;
      SameRemainder(0, m + 1, q + 1, n);
    }
  }

  /** The draws below m that make choice j among n. */
  ghost function Hits(m: nat, n: nat, j: nat): set<nat>
    requires n > 0
  {
    set r | r in Below(m) && Jitter(0, n - 1, r) == j
  }

  /** m / n, and one more for the first m % n choices. */
  function Share(m: nat, n: nat, j: nat): nat
    requires n > 0
  {
    m / n + if j < m % n then 1 else 0
  }

  lemma NextShare(m: nat, n: nat, j: nat)
    requires j < n
    ensures Share(m + 1, n, j) == Share(m, n, j) + if m % n == j then 1 else 0
  {
    NextQuotient(m, n);
  }

  lemma NextHit(m: nat, n: nat, j: nat)
    requires j < n
    ensures |Hits(m + 1, n, j)| == |Hits(m, n, j)| + if m % n == j then 1 else 0
  {
    assert Hits(m + 1, n, j) == Hits(m, n, j) + if Jitter(0, n - 1, m) == j then {m} else {};
  }

  /** Each choice has the same number of draws, up to one for the draws that are left over. */
  lemma {:induction false} HitsCount(m: nat, n: nat, j: nat)
    requires j < n
    ensures |Hits(m, n, j)| == Share(m, n, j)
    decreases m
  {
    if m == 0 {
      assert Hits(m, n, j) == {};
    } else {
      HitsCount(m - 1, n, j);
      NextHit(m - 1, n, j);
      NextShare(m - 1, n, j);
      hide *;
    }
  }

  ghost function Cons(a: set<nat>, b: set<seq<nat>>): set<seq<nat>> {
    set x, y | x in a && y in b :: [x] + y
  }

  lemma ConsMembers(a: set<nat>, b: set<seq<nat>>)
    ensures forall w :: w in Cons(a, b) <==> w != [] && w[0] in a && w[1..] in b
  {
    forall w | w != [] && w[0] in a && w[1..] in b ensures w in Cons(a, b) {
      assert w == [w[0]] + w[1..];
    }
  }

  lemma ConsNext(x: nat, y: seq<nat>, b: set<seq<nat>>)
    requires y !in b
    ensures Cons({x}, b + {y}) == Cons({x}, b) + {[x] + y} && [x] + y !in Cons({x}, b)
  {
    ConsMembers({x}, b);
    ConsMembers({x}, b + {y});
    hide Cons;
    assert ([x] + y)[1..] == y;
    forall w ensures w in Cons({x}, b + {y}) <==> w in Cons({x}, b) || w == [x] + y {
      if w != [] {
        assert w == [w[0]] + w[1..];
      }
    }
  }

  lemma {:induction false} ConsOne(x: nat, b: set<seq<nat>>)
    ensures |Cons({x}, b)| == |b|
    decreases |b|
  {
    if b == {} {
      assert Cons({x}, b) == {};
    } else {
      var y :| y in b;
      ConsOne(x, b - {y});
      ConsNext(x, y, b - {y});
      assert b == b - {y} + {y};
      hide Cons;
    }
  }

  lemma {:induction false} ConsCount(a: set<nat>, b: set<seq<nat>>)
    ensures |Cons(a, b)| == |a| * |b|
    decreases |a|
  {
    if a == {} {
      assert Cons(a, b) == {};
    } else {
      var x :| x in a;
      var a' := a - {x};
      assert a == a' + {x} && |a| == |a'| + 1;
      ConsStep(a', x, b);
      ConsCount(a', b);
      TimesNext(|a'|, |b|);
      hide *;
    }
  }

  lemma ConsStep(a: set<nat>, x: nat, b: set<seq<nat>>)
    requires x !in a
    ensures |Cons(a + {x}, b)| == |Cons(a, b)| + |b|
  {
    ConsAdd(a, x, b);
    ConsOne(x, b);
    hide Cons;
  }

  lemma TimesNext(k: nat, n: nat)
    ensures (k + 1) * n == k * n + n
  {
  }

  lemma ConsAdd(a: set<nat>, x: nat, b: set<seq<nat>>)
    requires x !in a
    ensures Cons(a + {x}, b) == Cons(a, b) + Cons({x}, b) && Cons(a, b) !! Cons({x}, b)
  {
    ConsMembers(a, b);
    ConsMembers({x}, b);
    ConsMembers(a + {x}, b);
    hide Cons;
  }

  /** All sequences of choices for n elements. */
  ghost function AllChoices(n: nat): set<seq<nat>>
    decreases n
  {
    if n <= 1 then {[]} else Cons(Below(n), AllChoices(n - 1))
  }

  function Factorial(n: nat): nat {
    if n == 0 then 1 else n * Factorial(n - 1)
  }

  /** There are n! sequences of choices. */
  lemma {:induction false} ChoicesCount(n: nat)
    ensures forall js :: js in AllChoices(n) <==> Choices(js, n)
    ensures |AllChoices(n)| == Factorial(n)
    decreases n
  {
    if n > 1 {
      ChoicesCount(n - 1);
      ConsCount(Below(n), AllChoices(n - 1));
      ConsMembers(Below(n), AllChoices(n - 1));
    } else {
      assert Factorial(1) == 1 * Factorial(0);
    }
  }

  /** One draw below m for each step. */
  predicate Draws(rands: seq<nat>, n: nat, m: nat) {
    |rands| == (if n <= 1 then 0 else n - 1) && forall r :: r in rands ==> r < m
  }

  /** The draws that make the given choices. */
  ghost function DrawsFor(m: nat, n: nat, js: seq<nat>): set<seq<nat>>
    requires Choices(js, n)
    decreases n
  {
    if n <= 1 then {[]} else Cons(Hits(m, n, js[0]), DrawsFor(m, n - 1, js[1..]))
  }

  lemma {:induction false} DrawsForAre(m: nat, n: nat, js: seq<nat>, rands: seq<nat>)
    requires Choices(js, n)
    ensures rands in DrawsFor(m, n, js) <==> Draws(rands, n, m) && Drawn(rands, n) == js
    decreases n
  {
    if n > 1 {
      ConsMembers(Hits(m, n, js[0]), DrawsFor(m, n - 1, js[1..]));
      if rands != [] {
        DrawsForAre(m, n - 1, js[1..], rands[1..]);
        FirstDraw(rands, n, m);
        DrawnStep(rands, n, js);
        hide *;
      }
    }
  }

  lemma FirstDraw(rands: seq<nat>, n: nat, m: nat)
    requires n > 1 && rands != []
    ensures Draws(rands, n, m) <==> rands[0] < m && Draws(rands[1..], n - 1, m)
  {
    assert rands[0] in rands;
    assert forall r :: r in rands <==> r == rands[0] || r in rands[1..] by {
      assert rands == [rands[0]] + rands[1..];
    }
  }

  lemma DrawnStep(rands: seq<nat>, n: nat, js: seq<nat>)
    requires n > 1 && Choices(js, n) && rands != []
    ensures |rands| + 1 >= n ==>
      (Drawn(rands, n) == js <==> Jitter(0, n - 1, rands[0]) == js[0] && Drawn(rands[1..], n - 1) == js[1..])
  {
    hide Jitter;
    assert js == [js[0]] + js[1..];
  }

  /** How many draws these are. */
  function Ways(m: nat, n: nat, js: seq<nat>): nat
    requires Choices(js, n)
    decreases n
  {
    if n <= 1 then 1 else Share(m, n, js[0]) * Ways(m, n - 1, js[1..])
  }

  lemma {:induction false} DrawsCount(m: nat, n: nat, js: seq<nat>)
    requires Choices(js, n)
    ensures |DrawsFor(m, n, js)| == Ways(m, n, js)
    decreases n
  {
    if n > 1 {
      HitsCount(m, n, js[0]);
      DrawsCount(m, n - 1, js[1..]);
      ConsCount(Hits(m, n, js[0]), DrawsFor(m, n - 1, js[1..]));
    }
  }

  predicate DividesAll(m: nat, n: nat) {
    forall k :: 2 <= k <= n ==> m % k == 0
  }

  lemma {:induction false} EvenWays(m: nat, n: nat, js: seq<nat>, ks: seq<nat>)
    requires DividesAll(m, n) && Choices(js, n) && Choices(ks, n)
    ensures Ways(m, n, js) == Ways(m, n, ks)
    decreases n
  {
    if n > 1 {
      EvenWays(m, n - 1, js[1..], ks[1..]);
      assert m % n == 0;
    }
  }

  function Power(m: nat, k: nat): nat {
    if k == 0 then 1 else m * Power(m, k - 1)
  }

  /** Each of the n! sequences then has its n!-th part of the m^(n - 1) draws. */
  lemma {:induction false} EvenShare(m: nat, n: nat, js: seq<nat>)
    requires n >= 1 && DividesAll(m, n) && Choices(js, n)
    ensures Ways(m, n, js) * Factorial(n) == Power(m, n - 1)
    decreases n
  {
    if n > 1 {
      EvenShare(m, n - 1, js[1..]);
      assert m % n == 0;
      Regroup(m / n, Ways(m, n - 1, js[1..]), n, Factorial(n - 1));
      assert m / n * n == m;
    } else {
      assert Factorial(1) == 1 * Factorial(0);
    }
  }

  lemma Regroup(a: nat, b: nat, c: nat, d: nat)
    ensures (a * b) * (c * d) == (a * c) * (b * d)
  {
  }

  /** Always the first element. */
  function Zeros(n: nat): (js: seq<nat>)
    ensures Choices(js, n)
    decreases n
  {
    if n <= 1 then [] else [0] + Zeros(n - 1)
  }

  lemma {:induction false} ZerosHaveWays(m: nat, n: nat)
    requires m > 0
    ensures Ways(m, n, Zeros(n)) > 0
    decreases n
  {
    if n > 1 {
      ZerosHaveWays(m, n - 1);
      SomeQuotient(m, n);
      Positive(Share(m, n, 0), Ways(m, n - 1, Zeros(n - 1)));
      assert Zeros(n)[1..] == Zeros(n - 1);
    }
  }

  lemma Positive(a: nat, b: nat)
    requires a > 0 && b > 0
    ensures a * b > 0
  {
  }

  lemma Cancels(q: nat, a: nat, b: nat)
    requires q > 0 && q * a == q * b
    ensures a == b
  {
    Spread(a - b, q);
  }

  lemma SomeQuotient(m: nat, n: nat)
    requires m > 0 && n > 0
    ensures m / n > 0 || m % n > 0
  {
    assert m == m / n * n + m % n;
  }

  lemma {:induction false} UnevenWays(m: nat, n: nat) returns (js: seq<nat>, ks: seq<nat>)
    requires m > 0 && !DividesAll(m, n)
    ensures Choices(js, n) && Choices(ks, n) && Ways(m, n, js) != Ways(m, n, ks)
    decreases n
  {
    SomeQuotient(m, n);
    if m % n != 0 {
      var z := Zeros(n - 1);
      ZerosHaveWays(m, n - 1);
      js, ks := [0] + z, [n - 1] + z;
      WaysStep(m, n, 0, z);
      WaysStep(m, n, n - 1, z);
      hide Ways, Zeros;
      var w := Ways(m, n - 1, z);
      assert (m / n + 1) * w == m / n * w + w;
    } else {
      var us, vs := UnevenWays(m, n - 1);
      js, ks := [0] + us, [0] + vs;
      WaysStep(m, n, 0, us);
      WaysStep(m, n, 0, vs);
      hide Ways;
      if m / n * Ways(m, n - 1, us) == m / n * Ways(m, n - 1, vs) {
        Cancels(m / n, Ways(m, n - 1, us), Ways(m, n - 1, vs));
      }
    }
  }

  lemma WaysStep(m: nat, n: nat, j: nat, js: seq<nat>)
    requires 1 < n && j < n && Choices(js, n - 1)
    ensures Choices([j] + js, n)
    ensures Ways(m, n, [j] + js) == Share(m, n, j) * Ways(m, n - 1, js)
  {
    assert ([j] + js)[1..] == js;
  }

  /**
    With m possible draws a step, all sequences of choices are equally likely if and only if m is a
    multiple of every number of choices up to n.
   */
  lemma EquallyLikelyIff(m: nat, n: nat)
    requires m > 0
    ensures (forall js, ks :: Choices(js, n) && Choices(ks, n) ==> |DrawsFor(m, n, js)| == |DrawsFor(m, n, ks)|)
            <==> DividesAll(m, n)
  {
    forall js | Choices(js, n) ensures |DrawsFor(m, n, js)| == Ways(m, n, js) {
      DrawsCount(m, n, js);
    }
    hide *;
    if DividesAll(m, n) {
      forall js, ks | Choices(js, n) && Choices(ks, n) ensures |DrawsFor(m, n, js)| == |DrawsFor(m, n, ks)| {
        EvenWays(m, n, js, ks);
      }
    } else {
      var js, ks := UnevenWays(m, n);
      assert |DrawsFor(m, n, js)| != |DrawsFor(m, n, ks)|;
    }
  }

  /** An arrangement of distinct elements comes from the draws for one sequence of choices, and from no others. */
  lemma DrawsOfArrangement<T>(s: seq<T>, t: seq<T>, m: nat) returns (js: seq<nat>)
    requires Distinct(s) && multiset(t) == multiset(s)
    ensures Choices(js, |s|) && |DrawsFor(m, |s|, js)| == Ways(m, |s|, js)
    ensures forall rands :: Draws(rands, |s|, m) ==>
      (Shuffled(s, |s|, Drawn(rands, |s|)) == t <==> rands in DrawsFor(m, |s|, js))
  {
    assert |multiset(t)| == |t| && |multiset(s)| == |s|;
    js := ChoicesReach(s, |s|, t);
    DrawsCount(m, |s|, js);
    forall rands | Draws(rands, |s|, m)
      ensures Shuffled(s, |s|, Drawn(rands, |s|)) == t <==> rands in DrawsFor(m, |s|, js)
    {
      DrawsForAre(m, |s|, js, rands);
      if Shuffled(s, |s|, Drawn(rands, |s|)) == t {
        ChoicesDiffer(s, |s|, Drawn(rands, |s|), js);
      }
    }
  }
}

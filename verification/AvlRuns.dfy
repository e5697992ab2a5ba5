/**
  Whole runs of the AVL tree: after any sequence of insertions and removals a search finds
  what was last inserted under that key and not removed since; and how deep the tree is,
  given that an inserted node keeps height 0 until it is balanced.
 */
module AvlRuns {
  import opened Basics
  import opened AvlTree
  import opened AvlMap

  // ---------- Runs ----------

  datatype Op<R, E> = Put(cell: Cell<R, E>) | Del(elm: E)

  ghost function Apply<R, E>(cmp: (E, E) -> int, t: Tree<R, E>, op: Op<R, E>): (t': Tree<R, E>)
    requires Avl(t)
    ensures Avl(t')
  {
    match op
    case Put(c) => Insert(cmp, t, c).0
    case Del(e) => Remove(cmp, t, e)
  }

  ghost function Run<R, E>(cmp: (E, E) -> int, ops: seq<Op<R, E>>): (t: Tree<R, E>)
    ensures Avl(t)
  {
    if ops == [] then Leaf else Apply(cmp, Run(cmp, ops[..|ops| - 1]), ops[|ops| - 1])
  }

  /** The reference: the cell of the last operation on e's key, if that was an insertion. */
  ghost function Latest<R, E>(cmp: (E, E) -> int, ops: seq<Op<R, E>>, e: E): Option<Cell<R, E>> {
    if ops == [] then None
    else
      match ops[|ops| - 1]
      case Put(c) => if cmp(e, c.elm) == 0 then Some(c) else Latest(cmp, ops[..|ops| - 1], e)
      case Del(k) => if cmp(e, k) == 0 then None else Latest(cmp, ops[..|ops| - 1], e)
  }

  lemma {:induction false} RunIsSorted<R, E(!new)>(cmp: (E, E) -> int, ops: seq<Op<R, E>>)
    requires Lawful(cmp)
    ensures Sorted(cmp, Cells(Run(cmp, ops)))
  {
    if ops != [] {
      var t := Run(cmp, ops[..|ops| - 1]);
      RunIsSorted(cmp, ops[..|ops| - 1]);
      hide Lawful, Sorted, Insert, Remove, Pick;
      match ops[|ops| - 1]
      case Put(c) =>
        InsertCells(cmp, t, c);
        SplitStaysSorted(cmp, Cells(t), c);
      case Del(e) =>
        RemoveCells(cmp, t, e);
        if t.Node? {
          SplitStaysSorted(cmp, Cells(t), Cell(t.cell.ref, e));
        }
    }
  }

  lemma Trans<E(!new)>(cmp: (E, E) -> int, a: E, b: E, c: E)
    requires Lawful(cmp) && cmp(a, b) == 0
    ensures cmp(b, a) == 0
    ensures cmp(b, c) == 0 <==> cmp(a, c) == 0
  {
    assert cmp(b, a) <= 0 && cmp(a, b) <= 0;
    assert cmp(c, a) <= 0 && cmp(a, b) <= 0 ==> cmp(c, b) <= 0;
    assert cmp(c, b) <= 0 && cmp(b, a) <= 0 ==> cmp(c, a) <= 0;
  }

  /** Cells on the sides of k, or matching k, are no match for an e that does not match k, and conversely. */
  lemma PickOfPick<R, E(!new)>(cmp: (E, E) -> int, s: seq<Cell<R, E>>, k: E, e: E, side: Side)
    requires Lawful(cmp)
    ensures (cmp(e, k) == 0) != (side == Same) ==> Pick(cmp, Pick(cmp, s, k, side), e, Same) == []
  {
    if s != [] {
      PickHead(cmp, s, k, side);
      PickOfPick(cmp, s[1..], k, e, side);
      if cmp(e, k) == 0 {
        Trans(cmp, e, k, s[0].elm);
      } else if SideOf(cmp, k, s[0]) == Same {
        Trans(cmp, k, s[0].elm, e);
      }
    }
  }

  lemma PickThree<R, E>(cmp: (E, E) -> int, b: seq<Cell<R, E>>, m: seq<Cell<R, E>>, a: seq<Cell<R, E>>, e: E)
    ensures Pick(cmp, b + m + a, e, Same) == Pick(cmp, b, e, Same) + Pick(cmp, m, e, Same) + Pick(cmp, a, e, Same)
    ensures Pick(cmp, b + a, e, Same) == Pick(cmp, b, e, Same) + Pick(cmp, a, e, Same)
  {
    PickConcat(cmp, b + m, a, e, Same);
    PickConcat(cmp, b, m, e, Same);
    PickConcat(cmp, b, a, e, Same);
  }

  lemma FindAfterPut<R, E(!new)>(cmp: (E, E) -> int, t: Tree<R, E>, c: Cell<R, E>, e: E)
    requires Lawful(cmp) && Avl(t) && Sorted(cmp, Cells(t))
    ensures Find(cmp, Insert(cmp, t, c).0, e) == if cmp(e, c.elm) == 0 then Some(c) else Find(cmp, t, e)
  {
    var s, k := Cells(t), c.elm;
    var b, m, a := Pick(cmp, s, k, Before), Pick(cmp, s, k, Same), Pick(cmp, s, k, After);
    assert Pick(cmp, [c], e, Same) == if cmp(e, k) == 0 then [c] else [];
    hide *;
    InsertCells(cmp, t, c);
    SplitStaysSorted(cmp, s, c);
    FindCell(cmp, Insert(cmp, t, c).0, e);
    FindCell(cmp, t, e);
    SortedSplits(cmp, s, k);
    PickThree(cmp, b, m, a, e);
    PickThree(cmp, b, [c], a, e);
    PickOfPick(cmp, s, k, e, Before);
    PickOfPick(cmp, s, k, e, Same);
    PickOfPick(cmp, s, k, e, After);
    Heads(Pick(cmp, b, e, Same), Pick(cmp, a, e, Same), c);
  }

  lemma Heads<T>(b: seq<T>, a: seq<T>, c: T)
    ensures First([] + [c] + a) == Some(c)
    ensures b + [] + a == b + a
    ensures First<T>([] + []) == None
  {
  }

  lemma FindAfterDel<R, E(!new)>(cmp: (E, E) -> int, t: Tree<R, E>, k: E, e: E)
    requires Lawful(cmp) && Avl(t) && Sorted(cmp, Cells(t)) && Sorted(cmp, Cells(Remove(cmp, t, k)))
    ensures Find(cmp, Remove(cmp, t, k), e) == if cmp(e, k) == 0 then None else Find(cmp, t, e)
  {
    var s := Cells(t);
    var b, m, a := Pick(cmp, s, k, Before), Pick(cmp, s, k, Same), Pick(cmp, s, k, After);
    hide *;
    RemoveCells(cmp, t, k);
    FindCell(cmp, Remove(cmp, t, k), e);
    FindCell(cmp, t, e);
    SortedSplits(cmp, s, k);
    PickThree(cmp, b, m, a, e);
    PickOfPick(cmp, s, k, e, Before);
    PickOfPick(cmp, s, k, e, Same);
    PickOfPick(cmp, s, k, e, After);
    if cmp(e, k) == 0 {
      FirstOfNothing<Cell<R, E>>();
    } else {
      assert Pick(cmp, b, e, Same) + [] + Pick(cmp, a, e, Same) == Pick(cmp, b, e, Same) + Pick(cmp, a, e, Same);
    }
  }

  lemma FirstOfNothing<T>()
    ensures First<T>([] + []) == None
  {
  }

  /** After any run, a search returns exactly what the reference says the run left under that key. */
  lemma {:induction false} FindIsLatest<R, E(!new)>(cmp: (E, E) -> int, ops: seq<Op<R, E>>, e: E)
    requires Lawful(cmp)
    ensures Find(cmp, Run(cmp, ops), e) == Latest(cmp, ops, e)
  {
    if ops != [] {
      var before := ops[..|ops| - 1];
      RunIsSorted(cmp, before);
      RunIsSorted(cmp, ops);
      FindIsLatest(cmp, before, e);
      hide Lawful, Sorted, Insert, Remove, Pick, Find;
      match ops[|ops| - 1]
      case Put(c) => FindAfterPut(cmp, Run(cmp, before), c, e);
      case Del(k) => FindAfterDel(cmp, Run(cmp, before), k, e);
    }
  }

  /** A new key adds one cell, a present one is replaced; a removal takes out the match and nothing else. */
  lemma OperationsChangeOneCell<R, E(!new)>(cmp: (E, E) -> int, t: Tree<R, E>, c: Cell<R, E>)
    requires Lawful(cmp) && Avl(t) && Sorted(cmp, Cells(t))
    ensures |Cells(Insert(cmp, t, c).0)| == |Cells(t)| + if Insert(cmp, t, c).1 == None then 1 else 0
    ensures Insert(cmp, t, c).1 == Find(cmp, t, c.elm)
    ensures Find(cmp, t, c.elm) == None ==> Cells(Remove(cmp, t, c.elm)) == Cells(t)
    ensures Find(cmp, t, c.elm) != None ==> |Cells(Remove(cmp, t, c.elm))| == |Cells(t)| - 1
  {
    hide *;
    InsertCells(cmp, t, c);
    RemoveCells(cmp, t, c.elm);
    FindCell(cmp, t, c.elm);
    SortedSplits(cmp, Cells(t), c.elm);
    FirstOf(Pick(cmp, Cells(t), c.elm, Same));
  }

  lemma FirstOf<T>(s: seq<T>)
    ensures First(s) == None <==> s == []
  {
  }

  // ---------- Stored heights and real depth ----------

  /** Number of levels the tree really has. */
  ghost function Depth<R, E>(t: Tree<R, E>): nat {
    if t.Leaf? then 0 else 1 + Max(Depth(t.left), Depth(t.right))
  }

  /** No node is fresh. */
  ghost predicate Settled<R, E>(t: Tree<R, E>) {
    t.Node? ==> !Fresh(t) && Settled(t.left) && Settled(t.right)
  }

  /** Every node stores the number of levels below and including it. */
  ghost predicate HeightsExact<R, E>(t: Tree<R, E>) {
    t.Node? ==> t.h == Depth(t) && HeightsExact(t.left) && HeightsExact(t.right)
  }

  /** The textbook invariant: real depths of siblings differ by at most one. */
  ghost predicate TrulyBalanced<R, E>(t: Tree<R, E>) {
    t.Node? ==>
      && Depth(t.left) <= Depth(t.right) + 1 && Depth(t.right) <= Depth(t.left) + 1
      && TrulyBalanced(t.left) && TrulyBalanced(t.right)
  }

  /** A stored height is the real depth or one less. */
  lemma {:induction false} StoredHeightWithinOne<R, E>(t: Tree<R, E>)
    requires Avl(t)
    ensures Height(t) <= Depth(t) <= Height(t) + 1
  {
    if t.Node? {
      StoredHeightWithinOne(t.left);
      StoredHeightWithinOne(t.right);
    }
  }

  /** Stored heights are exact if and only if no node is fresh; the textbook invariant then holds. */
  lemma {:induction false} ExactIffSettled<R, E>(t: Tree<R, E>)
    requires Avl(t)
    ensures HeightsExact(t) <==> Settled(t)
    ensures Settled(t) ==> Depth(t) == Height(t) && TrulyBalanced(t)
  {
    if t.Node? {
      ExactIffSettled(t.left);
      ExactIffSettled(t.right);
    }
  }

  /** Real depths of siblings differ by at most two. */
  ghost predicate RoughlyBalanced<R, E>(t: Tree<R, E>) {
    t.Node? ==>
      && Depth(t.left) <= Depth(t.right) + 2 && Depth(t.right) <= Depth(t.left) + 2
      && RoughlyBalanced(t.left) && RoughlyBalanced(t.right)
  }

  /** What every run does guarantee of real depths. */
  lemma {:induction false} AvlIsRoughlyBalanced<R, E>(t: Tree<R, E>)
    requires Avl(t)
    ensures RoughlyBalanced(t)
  {
    if t.Node? {
      StoredHeightWithinOne(t.left);
      StoredHeightWithinOne(t.right);
      AvlIsRoughlyBalanced(t.left);
      AvlIsRoughlyBalanced(t.right);
    }
  }

  lemma {:induction false} SettledBalance<R, E>(l: Tree<R, E>, x: Cell<R, E>, r: Tree<R, E>)
    requires Avl(l) && Avl(r)
    ensures Settled(Balance(l, x, r)) <==> Settled(l) && Settled(r)
    decreases Work(l, r)
  {
    if Height(l) + 1 < Height(r) {
      RaiseLeftSteps(l, x, r);
      TurnedRightSettled(r);
      hide Balance, Avl, Work, Height, TurnedRight;
      SettledBalance(l, x, TurnedRight(r).left);
      SettledBalance(Balance(l, x, TurnedRight(r).left), TurnedRight(r).cell, TurnedRight(r).right);
    } else if Height(r) + 1 < Height(l) {
      RaiseRightSteps(l, x, r);
      TurnedLeftSettled(l);
      hide Balance, Avl, Work, Height, TurnedLeft;
      SettledBalance(TurnedLeft(l).right, x, r);
      SettledBalance(TurnedLeft(l).left, TurnedLeft(l).cell, Balance(TurnedLeft(l).right, x, r));
    } else {
      assert Balance(l, x, r) == Mk(l, x, r);
    }
  }

  lemma TurnedRightSettled<R, E>(r: Tree<R, E>)
    requires Avl(r) && Height(r) > 1
    ensures Settled(r) <==> Settled(TurnedRight(r).left) && Settled(TurnedRight(r).right)
  {
    TurnedRightShape(r);
    SkewRightShape(r);
    Children(r);
  }

  lemma TurnedLeftSettled<R, E>(l: Tree<R, E>)
    requires Avl(l) && Height(l) > 1
    ensures Settled(l) <==> Settled(TurnedLeft(l).left) && Settled(TurnedLeft(l).right)
  {
    TurnedLeftShape(l);
    SkewLeftShape(l);
    Children(l);
  }

  lemma {:induction false} SettledMove<R, E>(dst: Tree<R, E>, src: Tree<R, E>, dir: Dir)
    requires Avl(dst) && Avl(src) && Settled(dst) && Settled(src)
    ensures Settled(Move(dst, src, dir))
  {
    if dst.Node? {
      hide Balance, Avl;
      if dir == Left {
        SettledMove(dst.left, src, dir);
        SettledBalance(Move(dst.left, src, dir), dst.cell, dst.right);
      } else {
        SettledMove(dst.right, src, dir);
        SettledBalance(dst.left, dst.cell, Move(dst.right, src, dir));
      }
    }
  }

  /** Removal never introduces an inexact height. */
  lemma {:induction false} SettledRemove<R, E>(cmp: (E, E) -> int, t: Tree<R, E>, e: E)
    requires Avl(t) && Settled(t)
    ensures Settled(Remove(cmp, t, e))
  {
    if t.Node? {
      hide Balance, Avl;
      if cmp(e, t.cell.elm) == 0 {
        SettledMove(t.left, t.right, Right);
      } else if cmp(e, t.cell.elm) < 0 {
        SettledRemove(cmp, t.left, e);
        SettledBalance(Remove(cmp, t.left, e), t.cell, t.right);
      } else {
        SettledRemove(cmp, t.right, e);
        SettledBalance(t.left, t.cell, Remove(cmp, t.right, e));
      }
    }
  }

  lemma {:induction false} SettledInsert<R, E>(cmp: (E, E) -> int, t: Tree<R, E>, c: Cell<R, E>)
    requires Avl(t)
    ensures Insert(cmp, t, c).1 == Find(cmp, t, c.elm)
    ensures Settled(Insert(cmp, t, c).0) <==> Settled(t) && Find(cmp, t, c.elm) != None
  {
    if t.Node? {
      hide Balance, Avl;
      if cmp(c.elm, t.cell.elm) < 0 {
        SettledInsert(cmp, t.left, c);
        SettledBalance(Insert(cmp, t.left, c).0, t.cell, t.right);
      } else if cmp(c.elm, t.cell.elm) > 0 {
        SettledInsert(cmp, t.right, c);
        SettledBalance(t.left, t.cell, Insert(cmp, t.right, c).0);
      }
    }
  }

  /** Stored heights are exact after an insertion if and only if they were before and the key was present. */
  lemma InsertExactIff<R, E>(cmp: (E, E) -> int, t: Tree<R, E>, c: Cell<R, E>)
    requires Avl(t)
    ensures HeightsExact(Insert(cmp, t, c).0) <==> HeightsExact(t) && Find(cmp, t, c.elm) != None
  {
    SettledInsert(cmp, t, c);
    ExactIffSettled(t);
    ExactIffSettled(Insert(cmp, t, c).0);
  }

  lemma InsertBelowFresh<R>(cmp: (int, int) -> int, t: Tree<R, int>, c: Cell<R, int>)
    requires Avl(t) && t.Node? && cmp(c.elm, t.cell.elm) < 0
    requires Gap(Insert(cmp, t.left, c).0, t.right) <= 1
    ensures Insert(cmp, t, c).0 == Mk(Insert(cmp, t.left, c).0, t.cell, t.right)
  {
  }

  /** The failing case in full: inserting 3, 2, 1 in that order gives a chain of three nodes. */
  lemma DescendingInsertsMakeAChain<R>(r: R)
    ensures var t := Run((a: int, b: int) => a - b, [Put(Cell(r, 3)), Put(Cell(r, 2)), Put(Cell(r, 1))]);
            && Cells(t) == [Cell(r, 1), Cell(r, 2), Cell(r, 3)]
            && Depth(t) == 3 && !TrulyBalanced(t) && !HeightsExact(t)
  {
    var cmp := (a: int, b: int) => a - b;
    var ops := [Put(Cell(r, 3)), Put(Cell(r, 2)), Put(Cell(r, 1))];
    assert ops[..2][..1] == ops[..1] && ops[..1][..0] == [];
    var one := Node(Leaf, Cell(r, 3), 0, Leaf);
    assert Run(cmp, ops[..1]) == one;
    InsertBelowFresh(cmp, one, Cell(r, 2));
    var two := Mk(Node(Leaf, Cell(r, 2), 0, Leaf), Cell(r, 3), Leaf);
    assert Run(cmp, ops[..2]) == two;
    InsertBelowFresh(cmp, two.left, Cell(r, 1));
    InsertBelowFresh(cmp, two, Cell(r, 1));
    var three := Mk(Mk(Node(Leaf, Cell(r, 1), 0, Leaf), Cell(r, 2), Leaf), Cell(r, 3), Leaf);
    assert Run(cmp, ops) == three;
    assert Depth(three.left.left) == 1 && Depth(three.left) == 2;
    CellsOf(three);
    CellsOf(three.left);
    assert Cells(three.left.left) == [Cell(r, 1)];
  }

  // ---------- Logarithmic search ----------

  ghost function Fib(n: nat): nat {
    if n < 2 then n else Fib(n - 1) + Fib(n - 2)
  }

  lemma {:induction false} FibMonotone(m: nat, n: nat)
    requires m <= n
    ensures Fib(m) <= Fib(n)
    decreases n
  {
    if m < n {
      FibMonotone(m, n - 1);
    }
  }

  lemma {:induction false} SizeByHeight<R, E>(t: Tree<R, E>)
    requires Avl(t)
    ensures |Cells(t)| + 1 >= Fib(Height(t) + 2)
  {
    if t.Node? {
      SizeByHeight(t.left);
      SizeByHeight(t.right);
      CellsOf(t);
      if Height(t) > 0 {
        Children(t);
        hide Avl, Cells, Height;
        var low := if Height(t.left) < Height(t.right) then Height(t.left) else Height(t.right);
        assert Height(t) <= low + 2;
        FibMonotone(Height(t), low + 2);
      }
    }
  }

  /** Nodes a search compares with. */
  ghost function Visited<R, E>(cmp: (E, E) -> int, t: Tree<R, E>, e: E): nat {
    if t.Leaf? then 0
    else if cmp(e, t.cell.elm) == 0 then 1
    else if cmp(e, t.cell.elm) < 0 then 1 + Visited(cmp, t.left, e)
    else 1 + Visited(cmp, t.right, e)
  }

  lemma {:induction false} VisitsWithinDepth<R, E>(cmp: (E, E) -> int, t: Tree<R, E>, e: E)
    ensures Visited(cmp, t, e) <= Depth(t)
  {
    if t.Node? {
      if cmp(e, t.cell.elm) < 0 {
        VisitsWithinDepth(cmp, t.left, e);
      } else {
        VisitsWithinDepth(cmp, t.right, e);
      }
    }
  }

  /** After any run a search compares with d nodes only if the tree holds at least Fib(d + 1) - 1 elements. */
  lemma SearchIsLogarithmic<R, E>(cmp: (E, E) -> int, ops: seq<Op<R, E>>, e: E)
    ensures |Cells(Run(cmp, ops))| + 1 >= Fib(Visited(cmp, Run(cmp, ops), e) + 1)
  {
    var t := Run(cmp, ops);
    SizeByHeight(t);
    StoredHeightWithinOne(t);
    VisitsWithinDepth(cmp, t, e);
    FibMonotone(Visited(cmp, t, e) + 1, Height(t) + 2);
  }

  lemma FibFive(n: nat)
    requires n >= 2
    ensures Fib(n) == Fib(n - 1) + Fib(n - 2) && Fib(n + 1) == Fib(n) + Fib(n - 1)
    ensures Fib(n + 2) == Fib(n + 1) + Fib(n) && Fib(n + 3) == Fib(n + 2) + Fib(n + 1)
    ensures Fib(n + 4) == Fib(n + 3) + Fib(n + 2)
  {
  }

  lemma FibThirtyOne()
    ensures Fib(31) == 1346269
  {
    assert Fib(0) == 0 && Fib(1) == 1;
    hide Fib;
    FibFive(2);
    assert Fib(2) == 1 && Fib(3) == 2 && Fib(4) == 3 && Fib(5) == 5 && Fib(6) == 8;
    FibFive(7);
    assert Fib(7) == 13 && Fib(8) == 21 && Fib(9) == 34 && Fib(10) == 55 && Fib(11) == 89;
    FibFive(12);
    assert Fib(12) == 144 && Fib(13) == 233 && Fib(14) == 377 && Fib(15) == 610 && Fib(16) == 987;
    FibFive(17);
    assert Fib(17) == 1597 && Fib(18) == 2584 && Fib(19) == 4181 && Fib(20) == 6765 && Fib(21) == 10946;
    FibFive(22);
    assert Fib(22) == 17711 && Fib(23) == 28657 && Fib(24) == 46368 && Fib(25) == 75025 && Fib(26) == 121393;
    FibFive(27);
    assert Fib(27) == 196418 && Fib(28) == 317811 && Fib(29) == 514229 && Fib(30) == 832040 && Fib(31) == 1346269;
  }

  /** Below a million elements that makes at most 29 comparisons. */
  lemma MillionElements<R, E>(cmp: (E, E) -> int, ops: seq<Op<R, E>>, e: E)
    requires |Cells(Run(cmp, ops))| < 1000000
    ensures Visited(cmp, Run(cmp, ops), e) <= 29
  {
    hide *;
    SearchIsLogarithmic(cmp, ops, e);
    FibThirtyOne();
    if Visited(cmp, Run(cmp, ops), e) > 29 {
      FibMonotone(31, Visited(cmp, Run(cmp, ops), e) + 1);
    }
  }
}

/**
  The operations of rdavl.c / rdavl.h on trees, against an order-theoretic reference:
  what the in-order sequence of the result is, for any lawful comparator.
 */
module AvlMap {
  import opened Basics
  import opened AvlTree

  // ---------- Comparators and sorted sequences ----------

  /** A three-way comparator that orders elements by a total preorder. */
  ghost predicate Lawful<E(!new)>(cmp: (E, E) -> int) {
    && (forall a, b :: cmp(a, b) < 0 <==> cmp(b, a) > 0)
    && (forall a, b, c :: cmp(a, b) <= 0 && cmp(b, c) <= 0 ==> cmp(a, c) <= 0)
  }

  ghost predicate Sorted<R, E>(cmp: (E, E) -> int, s: seq<Cell<R, E>>) {
    forall i, j :: 0 <= i < j < |s| ==> cmp(s[i].elm, s[j].elm) < 0
  }

  /** On which side of the searched element a cell lies. */
  datatype Side = Before | Same | After

  ghost function SideOf<R, E>(cmp: (E, E) -> int, e: E, c: Cell<R, E>): Side {
    if cmp(e, c.elm) > 0 then Before else if cmp(e, c.elm) == 0 then Same else After
  }

  /** The cells of s on one side of e, in order. */
  ghost function Pick<R, E>(cmp: (E, E) -> int, s: seq<Cell<R, E>>, e: E, side: Side): seq<Cell<R, E>> {
    if s == [] then []
    else (if SideOf(cmp, e, s[0]) == side then [s[0]] else []) + Pick(cmp, s[1..], e, side)
  }

  lemma {:induction false} PickConcat<R, E>(cmp: (E, E) -> int, a: seq<Cell<R, E>>, b: seq<Cell<R, E>>, e: E,
      side: Side)
    ensures Pick(cmp, a + b, e, side) == Pick(cmp, a, e, side) + Pick(cmp, b, e, side)
  {
    if a == [] {
      assert a + b == b;
    } else {
      assert a + b != [] && (a + b)[0] == a[0] && (a + b)[1..] == a[1..] + b;
      PickHead(cmp, a, e, side);
      PickHead(cmp, a + b, e, side);
      hide *;
      PickConcat(cmp, a[1..], b, e, side);
    }
  }

  lemma PickUniform<R, E>(cmp: (E, E) -> int, s: seq<Cell<R, E>>, e: E, side: Side, of: Side)
    requires forall i :: 0 <= i < |s| ==> SideOf(cmp, e, s[i]) == of
    ensures Pick(cmp, s, e, side) == if side == of then s else []
  {
  }

  lemma PickParts<R, E>(cmp: (E, E) -> int, l: seq<Cell<R, E>>, x: Cell<R, E>, r: seq<Cell<R, E>>, e: E, side: Side)
    ensures Pick(cmp, l + [x] + r, e, side) ==
            Pick(cmp, l, e, side) + (if SideOf(cmp, e, x) == side then [x] else []) + Pick(cmp, r, e, side)
  {
    PickConcat(cmp, l + [x], r, e, side);
    PickConcat(cmp, l, [x], e, side);
    assert Pick(cmp, [x], e, side) == if SideOf(cmp, e, x) == side then [x] else [];
  }

  /** Where the parts of a sorted sequence lie, seen from any element e. */
  lemma SortedParts<R, E(!new)>(cmp: (E, E) -> int, l: seq<Cell<R, E>>, x: Cell<R, E>, r: seq<Cell<R, E>>, e: E)
    requires Lawful(cmp) && Sorted(cmp, l + [x] + r)
    ensures Sorted(cmp, l) && Sorted(cmp, r)
    ensures SideOf(cmp, e, x) != After ==> forall i :: 0 <= i < |l| ==> SideOf(cmp, e, l[i]) == Before
    ensures SideOf(cmp, e, x) != Before ==> forall i :: 0 <= i < |r| ==> SideOf(cmp, e, r[i]) == After
  {
    var s := l + [x] + r;
    assert s[|l|] == x;
    assert forall i :: 0 <= i < |l| ==> s[i] == l[i];
    assert forall i {:trigger r[i]} :: 0 <= i < |r| ==> r[i] == s[|l| + 1 + i];
  }

  // How e divides a sorted sequence l + [x] + r: what lies beyond x is on one side as a whole.

  lemma PickAfter<R, E(!new)>(cmp: (E, E) -> int, l: seq<Cell<R, E>>, x: Cell<R, E>, r: seq<Cell<R, E>>, e: E,
      side: Side)
    requires Lawful(cmp) && Sorted(cmp, l + [x] + r) && SideOf(cmp, e, x) == After
    ensures Pick(cmp, l + [x] + r, e, side) ==
      if side == After then Pick(cmp, l, e, After) + [x] + r else Pick(cmp, l, e, side)
  {
    SortedParts(cmp, l, x, r, e);
    hide *;
    PickParts(cmp, l, x, r, e, side);
    PickUniform(cmp, r, e, side, After);
  }

  lemma PickBefore<R, E(!new)>(cmp: (E, E) -> int, l: seq<Cell<R, E>>, x: Cell<R, E>, r: seq<Cell<R, E>>, e: E,
      side: Side)
    requires Lawful(cmp) && Sorted(cmp, l + [x] + r) && SideOf(cmp, e, x) == Before
    ensures Pick(cmp, l + [x] + r, e, side) ==
      if side == Before then l + [x] + Pick(cmp, r, e, Before) else Pick(cmp, r, e, side)
  {
    SortedParts(cmp, l, x, r, e);
    hide *;
    PickParts(cmp, l, x, r, e, side);
    PickUniform(cmp, l, e, side, Before);
  }

  lemma PickSame<R, E(!new)>(cmp: (E, E) -> int, l: seq<Cell<R, E>>, x: Cell<R, E>, r: seq<Cell<R, E>>, e: E,
      side: Side)
    requires Lawful(cmp) && Sorted(cmp, l + [x] + r) && SideOf(cmp, e, x) == Same
    ensures Pick(cmp, l + [x] + r, e, side) == if side == Before then l else if side == Same then [x] else r
  {
    SortedParts(cmp, l, x, r, e);
    hide *;
    PickParts(cmp, l, x, r, e, side);
    PickUniform(cmp, l, e, side, Before);
    PickUniform(cmp, r, e, side, After);
  }

  // ---------- Operations ----------

  /** rd_avl_insert_node: the new tree and the cell it replaced, if any. A new node enters with height 0. */
  ghost function Insert<R, E>(cmp: (E, E) -> int, t: Tree<R, E>, c: Cell<R, E>): (res: (Tree<R, E>, Option<Cell<R, E>>))
    requires Avl(t)
    ensures Avl(res.0)
  {
    if t.Leaf? then (Node(Leaf, c, 0, Leaf), None)
    else if cmp(c.elm, t.cell.elm) == 0 then (Node(t.left, c, t.h, t.right), Some(t.cell))
    else if cmp(c.elm, t.cell.elm) < 0 then
      var (l, existing) := Insert(cmp, t.left, c);
      (Balance(l, t.cell, t.right), existing)
    else
      var (r, existing) := Insert(cmp, t.right, c);
      (Balance(t.left, t.cell, r), existing)
  }

  datatype Dir = Left | Right

  /** rd_avl_move: hangs src below the dir-most node of dst and balances back up. */
  ghost function Move<R, E>(dst: Tree<R, E>, src: Tree<R, E>, dir: Dir): (t: Tree<R, E>)
    requires Avl(dst) && Avl(src)
    ensures Avl(t)
  {
    if dst.Leaf? then src
    else if dir == Left then Balance(Move(dst.left, src, dir), dst.cell, dst.right)
    else Balance(dst.left, dst.cell, Move(dst.right, src, dir))
  }

  /** rd_avl_remove_elm0. */
  ghost function Remove<R, E>(cmp: (E, E) -> int, t: Tree<R, E>, e: E): (t': Tree<R, E>)
    requires Avl(t)
    ensures Avl(t')
  {
    if t.Leaf? then Leaf
    else if cmp(e, t.cell.elm) == 0 then Move(t.left, t.right, Right)
    else if cmp(e, t.cell.elm) < 0 then Balance(Remove(cmp, t.left, e), t.cell, t.right)
    else Balance(t.left, t.cell, Remove(cmp, t.right, e))
  }

  /** rd_avl_find_node. */
  ghost function Find<R, E>(cmp: (E, E) -> int, t: Tree<R, E>, e: E): Option<Cell<R, E>> {
    if t.Leaf? then None
    else if cmp(e, t.cell.elm) == 0 then Some(t.cell)
    else if cmp(e, t.cell.elm) < 0 then Find(cmp, t.left, e)
    else Find(cmp, t.right, e)
  }

  ghost function First<T>(s: seq<T>): Option<T> {
    if s == [] then None else Some(s[0])
  }

  // ---------- What they do to the in-order sequence ----------

  lemma MoveSteps<R, E>(dst: Tree<R, E>, src: Tree<R, E>, dir: Dir)
    requires dst.Node? && Avl(dst) && Avl(src)
    ensures Avl(dst.left) && Avl(dst.right)
    ensures dir == Left ==> Move(dst, src, dir) == Balance(Move(dst.left, src, dir), dst.cell, dst.right)
    ensures dir == Right ==> Move(dst, src, dir) == Balance(dst.left, dst.cell, Move(dst.right, src, dir))
  {
  }

  /** Joining two trees of any heights gives the cells of one followed by those of the other. */
  lemma {:induction false} MoveConcatenates<R, E>(dst: Tree<R, E>, src: Tree<R, E>, dir: Dir)
    requires Avl(dst) && Avl(src)
    ensures Cells(Move(dst, src, dir)) == if dir == Left then Cells(src) + Cells(dst) else Cells(dst) + Cells(src)
  {
    if dst.Node? {
      MoveSteps(dst, src, dir);
      CellsOf(dst);
      hide *;
      if dir == Left {
        MoveConcatenates(dst.left, src, dir);
        BalanceKeepsCells(Move(dst.left, src, dir), dst.cell, dst.right);
      } else {
        MoveConcatenates(dst.right, src, dir);
        BalanceKeepsCells(dst.left, dst.cell, Move(dst.right, src, dir));
      }
    }
  }

  lemma {:induction false} InsertCells<R, E(!new)>(cmp: (E, E) -> int, t: Tree<R, E>, c: Cell<R, E>)
    requires Avl(t) && Lawful(cmp) && Sorted(cmp, Cells(t))
    ensures Cells(Insert(cmp, t, c).0) == Pick(cmp, Cells(t), c.elm, Before) + [c] + Pick(cmp, Cells(t), c.elm, After)
    ensures Insert(cmp, t, c).1 == First(Pick(cmp, Cells(t), c.elm, Same))
  {
    if t.Node? {
      var e, l, x, r := c.elm, t.left, t.cell, t.right;
      CellsOf(t);
      SortedParts(cmp, Cells(l), x, Cells(r), e);
      if cmp(e, x.elm) == 0 {
        CellsOf(Insert(cmp, t, c).0);
        PickSame(cmp, Cells(l), x, Cells(r), e, Before);
        PickSame(cmp, Cells(l), x, Cells(r), e, Same);
        PickSame(cmp, Cells(l), x, Cells(r), e, After);
      } else if cmp(e, x.elm) < 0 {
        var l', existing := Insert(cmp, l, c).0, Insert(cmp, l, c).1;
        assert Insert(cmp, t, c) == (Balance(l', x, r), existing);
        PickAfter(cmp, Cells(l), x, Cells(r), e, Before);
        PickAfter(cmp, Cells(l), x, Cells(r), e, Same);
        PickAfter(cmp, Cells(l), x, Cells(r), e, After);
        hide *;
        InsertCells(cmp, l, c);
        BalanceKeepsCells(l', x, r);
        Regroup(Pick(cmp, Cells(l), e, Before), c, Pick(cmp, Cells(l), e, After), x, Cells(r));
      } else {
        var r', existing := Insert(cmp, r, c).0, Insert(cmp, r, c).1;
        assert Insert(cmp, t, c) == (Balance(l, x, r'), existing);
        PickBefore(cmp, Cells(l), x, Cells(r), e, Before);
        PickBefore(cmp, Cells(l), x, Cells(r), e, Same);
        PickBefore(cmp, Cells(l), x, Cells(r), e, After);
        hide *;
        InsertCells(cmp, r, c);
        BalanceKeepsCells(l, x, r');
        Regroup(Cells(l), x, Pick(cmp, Cells(r), e, Before), c, Pick(cmp, Cells(r), e, After));
      }
    }
  }

  lemma {:induction false} RemoveCells<R, E(!new)>(cmp: (E, E) -> int, t: Tree<R, E>, e: E)
    requires Avl(t) && Lawful(cmp) && Sorted(cmp, Cells(t))
    ensures Cells(Remove(cmp, t, e)) == Pick(cmp, Cells(t), e, Before) + Pick(cmp, Cells(t), e, After)
  {
    if t.Node? {
      var l, x, r := t.left, t.cell, t.right;
      CellsOf(t);
      SortedParts(cmp, Cells(l), x, Cells(r), e);
      if cmp(e, x.elm) == 0 {
        PickSame(cmp, Cells(l), x, Cells(r), e, Before);
        PickSame(cmp, Cells(l), x, Cells(r), e, After);
        MoveConcatenates(l, r, Right);
      } else if cmp(e, x.elm) < 0 {
        var l' := Remove(cmp, l, e);
        assert Remove(cmp, t, e) == Balance(l', x, r);
        PickAfter(cmp, Cells(l), x, Cells(r), e, Before);
        PickAfter(cmp, Cells(l), x, Cells(r), e, After);
        hide *;
        RemoveCells(cmp, l, e);
        BalanceKeepsCells(l', x, r);
        Regroup2(Pick(cmp, Cells(l), e, Before), Pick(cmp, Cells(l), e, After), x, Cells(r));
      } else {
        var r' := Remove(cmp, r, e);
        assert Remove(cmp, t, e) == Balance(l, x, r');
        PickBefore(cmp, Cells(l), x, Cells(r), e, Before);
        PickBefore(cmp, Cells(l), x, Cells(r), e, After);
        hide *;
        RemoveCells(cmp, r, e);
        BalanceKeepsCells(l, x, r');
        Regroup2(Cells(l) + [x], Pick(cmp, Cells(r), e, Before), x, Pick(cmp, Cells(r), e, After));
      }
    }
  }

  lemma Regroup2<T>(a: seq<T>, b: seq<T>, x: T, c: seq<T>)
    ensures a + b + [x] + c == a + (b + [x] + c)
    ensures a + b + c == a + (b + c)
  {
  }

  lemma {:induction false} FindCell<R, E(!new)>(cmp: (E, E) -> int, t: Tree<R, E>, e: E)
    requires Lawful(cmp) && Sorted(cmp, Cells(t))
    ensures Find(cmp, t, e) == First(Pick(cmp, Cells(t), e, Same))
  {
    if t.Node? {
      var l, x, r := t.left, t.cell, t.right;
      CellsOf(t);
      SortedParts(cmp, Cells(l), x, Cells(r), e);
      if cmp(e, x.elm) == 0 {
        PickSame(cmp, Cells(l), x, Cells(r), e, Same);
      } else if cmp(e, x.elm) < 0 {
        PickAfter(cmp, Cells(l), x, Cells(r), e, Same);
        FindCell(cmp, l, e);
      } else {
        PickBefore(cmp, Cells(l), x, Cells(r), e, Same);
        FindCell(cmp, r, e);
      }
    }
  }

  lemma PickHead<R, E>(cmp: (E, E) -> int, s: seq<Cell<R, E>>, e: E, side: Side)
    requires s != []
    ensures SideOf(cmp, e, s[0]) == side ==> Pick(cmp, s, e, side) == [s[0]] + Pick(cmp, s[1..], e, side)
    ensures SideOf(cmp, e, s[0]) != side ==> Pick(cmp, s, e, side) == Pick(cmp, s[1..], e, side)
  {
  }

  /** Any element cuts a sorted sequence into what is before it, at most one match, and what is after it. */
  lemma {:induction false} SortedSplits<R, E(!new)>(cmp: (E, E) -> int, s: seq<Cell<R, E>>, e: E)
    requires Lawful(cmp) && Sorted(cmp, s)
    ensures s == Pick(cmp, s, e, Before) + Pick(cmp, s, e, Same) + Pick(cmp, s, e, After)
    ensures |Pick(cmp, s, e, Same)| <= 1
  {
    if s != [] {
      var h, t := s[0], s[1..];
      assert s == [h] + t == [] + [h] + t;
      SortedParts(cmp, [], h, t, e);
      if SideOf(cmp, e, h) == Before {
        PickHead(cmp, s, e, Before);
        PickHead(cmp, s, e, Same);
        PickHead(cmp, s, e, After);
        hide *;
        SortedSplits(cmp, t, e);
        Regroup3([h], Pick(cmp, t, e, Before), Pick(cmp, t, e, Same), Pick(cmp, t, e, After));
      } else {
        HeadBeyond(cmp, h, t, e);
      }
    }
  }

  lemma HeadBeyond<R, E>(cmp: (E, E) -> int, h: Cell<R, E>, t: seq<Cell<R, E>>, e: E)
    requires SideOf(cmp, e, h) != Before && forall i :: 0 <= i < |t| ==> SideOf(cmp, e, t[i]) == After
    ensures Pick(cmp, [h] + t, e, Before) == []
    ensures Pick(cmp, [h] + t, e, Same) == if SideOf(cmp, e, h) == Same then [h] else []
    ensures Pick(cmp, [h] + t, e, After) == if SideOf(cmp, e, h) == Same then t else [h] + t
  {
    assert ([h] + t)[1..] == t;
    PickUniform(cmp, t, e, Before, After);
    PickUniform(cmp, t, e, Same, After);
    PickUniform(cmp, t, e, After, After);
  }

  lemma Regroup3<T>(h: seq<T>, a: seq<T>, b: seq<T>, c: seq<T>)
    ensures h + (a + b + c) == h + a + b + c
  {
  }

  lemma {:induction false} PickSides<R, E>(cmp: (E, E) -> int, s: seq<Cell<R, E>>, e: E, side: Side)
    ensures forall i :: 0 <= i < |Pick(cmp, s, e, side)| ==> SideOf(cmp, e, Pick(cmp, s, e, side)[i]) == side
  {
    if s != [] {
      PickSides(cmp, s[1..], e, side);
    }
  }

  lemma SortedConcat<R, E>(cmp: (E, E) -> int, a: seq<Cell<R, E>>, b: seq<Cell<R, E>>)
    requires Sorted(cmp, a) && Sorted(cmp, b)
    requires forall i, j :: 0 <= i < |a| && 0 <= j < |b| ==> cmp(a[i].elm, b[j].elm) < 0
    ensures Sorted(cmp, a + b)
  {
  }

  lemma SortedSlices<R, E>(cmp: (E, E) -> int, b: seq<Cell<R, E>>, m: seq<Cell<R, E>>, a: seq<Cell<R, E>>)
    requires Sorted(cmp, b + m + a)
    ensures Sorted(cmp, b) && Sorted(cmp, a)
    ensures forall i, j :: 0 <= i < |b| && 0 <= j < |a| ==> cmp(b[i].elm, a[j].elm) < 0
  {
    var s := b + m + a;
    assert forall i :: 0 <= i < |b| ==> b[i] == s[i];
    assert forall i {:trigger a[i]} :: 0 <= i < |a| ==> a[i] == s[|b| + |m| + i];
  }

  /** Insertion and removal keep the in-order sequence sorted. */
  lemma SplitStaysSorted<R, E(!new)>(cmp: (E, E) -> int, s: seq<Cell<R, E>>, c: Cell<R, E>)
    requires Lawful(cmp) && Sorted(cmp, s)
    ensures Sorted(cmp, Pick(cmp, s, c.elm, Before) + [c] + Pick(cmp, s, c.elm, After))
    ensures Sorted(cmp, Pick(cmp, s, c.elm, Before) + Pick(cmp, s, c.elm, After))
  {
    var b, m, a := Pick(cmp, s, c.elm, Before), Pick(cmp, s, c.elm, Same), Pick(cmp, s, c.elm, After);
    SortedSplits(cmp, s, c.elm);
    PickSides(cmp, s, c.elm, Before);
    PickSides(cmp, s, c.elm, After);
    hide Pick, Sorted;
    SortedSlices(cmp, b, m, a);
    assert forall i :: 0 <= i < |b| ==> cmp(b[i].elm, c.elm) < 0;
    hide *;
    SortedConcat(cmp, b, a);
    Insertion(cmp, b, c, a);
  }

  lemma Insertion<R, E>(cmp: (E, E) -> int, b: seq<Cell<R, E>>, c: Cell<R, E>, a: seq<Cell<R, E>>)
    requires Sorted(cmp, b + a)
    requires forall i :: 0 <= i < |b| ==> cmp(b[i].elm, c.elm) < 0
    requires forall i :: 0 <= i < |a| ==> cmp(c.elm, a[i].elm) < 0
    ensures Sorted(cmp, b + [c] + a)
  {
    var s, t := b + a, b + [c] + a;
    assert forall i :: 0 <= i < |b| ==> t[i] == b[i] == s[i];
    assert forall i {:trigger t[i]} :: |b| < i < |t| ==> t[i] == a[i - |b| - 1] == s[i - 1];
  }
}

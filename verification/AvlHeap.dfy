/**
  rdavl.c and rdavl.h on linked nodes that are rewritten in place. Each method is tied to the
  tree function of the same name: Shape(n, t) says that the nodes reachable from n are laid out
  as the tree t, whose cells carry the node references themselves.
 */
module AvlHeap {
  import opened Basics
  import opened AvlTree
  import opened AvlMap
  import opened AvlRuns

  class AvlNode<E> {
    var left: AvlNode?<E>
    var right: AvlNode?<E>
    var height: int
    var elm: E

    constructor (elm: E)
      ensures this.elm == elm
    {
      this.elm := elm;
    }
  }

  type Model<E> = Tree<AvlNode<E>, E>

  ghost function Nodes<E>(t: Model<E>): set<AvlNode<E>> {
    if t.Leaf? then {} else Nodes(t.left) + {t.cell.ref} + Nodes(t.right)
  }

  /** No node occurs twice. */
  ghost predicate Distinct<E>(t: Model<E>) {
    t.Node? ==>
      && Distinct(t.left) && Distinct(t.right) && Nodes(t.left) !! Nodes(t.right)
      && t.cell.ref !in Nodes(t.left) && t.cell.ref !in Nodes(t.right)
  }

  ghost predicate Apart<E>(l: Model<E>, n: AvlNode<E>, r: Model<E>) {
    Distinct(l) && Distinct(r) && Nodes(l) !! Nodes(r) && n !in Nodes(l) && n !in Nodes(r)
  }

  ghost predicate Shape<E>(n: AvlNode?<E>, t: Model<E>)
    reads Nodes(t)
  {
    match t
    case Leaf => n == null
    case Node(l, c, h, r) =>
      n == c.ref && c.ref.height == h && c.ref.elm == c.elm && Shape(c.ref.left, l) && Shape(c.ref.right, r)
  }

  // ---------- Node sets follow from the in-order sequence ----------

  ghost predicate NoRepeat<E>(s: seq<Cell<AvlNode<E>, E>>) {
    forall i, j :: 0 <= i < j < |s| ==> s[i].ref != s[j].ref
  }

  ghost function Refs<E>(s: seq<Cell<AvlNode<E>, E>>): set<AvlNode<E>> {
    set i | 0 <= i < |s| :: s[i].ref
  }

  lemma RefsConcat<E>(a: seq<Cell<AvlNode<E>, E>>, b: seq<Cell<AvlNode<E>, E>>)
    ensures Refs(a + b) == Refs(a) + Refs(b)
    ensures NoRepeat(a + b) <==> NoRepeat(a) && NoRepeat(b) && Refs(a) !! Refs(b)
  {
    var s := a + b;
    assert forall i :: 0 <= i < |a| ==> s[i] == a[i];
    assert forall i {:trigger b[i]} :: 0 <= i < |b| ==> s[|a| + i] == b[i];
    if NoRepeat(s) {
      assert forall i, j {:trigger b[i], b[j]} :: 0 <= i < j < |b| ==> b[i].ref != b[j].ref;
    } else if NoRepeat(a) && NoRepeat(b) {
      var i, j :| 0 <= i < j < |s| && s[i].ref == s[j].ref;
      assert i < |a| <= j && a[i].ref in Refs(a) && b[j - |a|].ref in Refs(b);
    }
  }

  lemma RefsOne<E>(c: Cell<AvlNode<E>, E>)
    ensures Refs([c]) == {c.ref} && NoRepeat([c])
  {
    assert [c][0] == c;
  }

  lemma {:induction false} NodesAreCells<E>(t: Model<E>)
    ensures Nodes(t) == Refs(Cells(t))
    ensures Distinct(t) <==> NoRepeat(Cells(t))
  {
    if t.Node? {
      hide Refs, NoRepeat, Cells;
      NodesAreCells(t.left);
      NodesAreCells(t.right);
      RefsOne(t.cell);
      RefsConcat(Cells(t.left), [t.cell]);
      RefsConcat(Cells(t.left) + [t.cell], Cells(t.right));
      CellsOf(t);
    }
  }

  lemma BalanceKeepsNodes<E>(l: Model<E>, x: Cell<AvlNode<E>, E>, r: Model<E>)
    requires Avl(l) && Avl(r)
    ensures Nodes(Balance(l, x, r)) == Nodes(l) + {x.ref} + Nodes(r)
    ensures Distinct(l) && Distinct(r) && Nodes(l) !! Nodes(r) && x.ref !in Nodes(l) && x.ref !in Nodes(r) ==>
              Distinct(Balance(l, x, r))
  {
    hide Balance, Avl, Cells, NoRepeat, Refs;
    BalanceKeepsCells(l, x, r);
    CellsOf(Mk(l, x, r));
    NodesAreCells(Balance(l, x, r));
    NodesAreCells(Mk(l, x, r));
  }

  lemma ShapeNode<E>(n: AvlNode?<E>, t: Model<E>)
    requires Shape(n, t)
    ensures t.Leaf? <==> n == null
    ensures t.Node? ==>
              && n == t.cell.ref && n.height == t.h && n.elm == t.cell.elm
              && Shape(n.left, t.left) && Shape(n.right, t.right)
  {
  }

  lemma ApartParts<E>(l: Model<E>, n: AvlNode<E>, r: Model<E>)
    requires Apart(l, n, r)
    ensures Distinct(l) && Distinct(r) && Nodes(l) !! Nodes(r) && n !in Nodes(l) && n !in Nodes(r)
  {
  }

  lemma MakeApart<E>(l: Model<E>, n: AvlNode<E>, r: Model<E>)
    requires Distinct(l) && Distinct(r) && Nodes(l) !! Nodes(r) && n !in Nodes(l) && n !in Nodes(r)
    ensures Apart(l, n, r)
  {
  }

  lemma PartsRight<E>(l: Model<E>, n: AvlNode<E>, r: Model<E>)
    requires r.Node? && Apart(l, n, r)
    ensures Distinct(l) && Distinct(r) && Distinct(r.left) && Distinct(r.right)
    ensures Nodes(r) == Nodes(r.left) + {r.cell.ref} + Nodes(r.right)
    ensures n !in Nodes(l) && n !in Nodes(r) && Nodes(l) !! Nodes(r)
    ensures Nodes(l) !! Nodes(r.left) && Nodes(l) !! Nodes(r.right) && Nodes(r.left) !! Nodes(r.right)
    ensures r.cell.ref != n && r.cell.ref !in Nodes(l) && r.cell.ref !in Nodes(r.left) && r.cell.ref !in Nodes(r.right)
  {
  }

  lemma PartsLeft<E>(l: Model<E>, n: AvlNode<E>, r: Model<E>)
    requires l.Node? && Apart(l, n, r)
    ensures Distinct(l) && Distinct(r) && Distinct(l.left) && Distinct(l.right)
    ensures Nodes(l) == Nodes(l.left) + {l.cell.ref} + Nodes(l.right)
    ensures n !in Nodes(l) && n !in Nodes(r) && Nodes(l) !! Nodes(r)
    ensures Nodes(r) !! Nodes(l.left) && Nodes(r) !! Nodes(l.right) && Nodes(l.left) !! Nodes(l.right)
    ensures l.cell.ref != n && l.cell.ref !in Nodes(r) && l.cell.ref !in Nodes(l.left) && l.cell.ref !in Nodes(l.right)
  {
  }

  // ---------- Balancing in place ----------

  function NodeHeight<E>(n: AvlNode?<E>): int
    reads n
  {
    if n == null then 0 else n.height
  }

  /** rd_avl_rotate up to its last call, to the left: ran takes n's inner child and goes below n. */
  method LowerLeft<E>(ran: AvlNode<E>, ghost l: Model<E>, ghost r: Model<E>, ghost bound: nat) returns (n: AvlNode<E>)
    requires Shape(ran.left, l) && Shape(ran.right, r) && Apart(l, ran, r)
    requires r.Node? && Avl(l) && Avl(r.left) && Work(l, r.left) < bound
    modifies {ran} + Nodes(l) + Nodes(r)
    ensures n == r.cell.ref && n.elm == r.cell.elm
    ensures Shape(n.left, Balance(l, Cell(ran, old(ran.elm)), r.left)) && Shape(n.right, r.right)
    decreases bound, 0
  {
    hide *;
    PartsRight(l, ran, r);
    ShapeNode(ran.right, r);
    n := ran.right;
    assert allocated(Nodes(r.left)) && allocated(Nodes(r.right)) && allocated(Nodes(l));
    ran.right := n.left;
    MakeApart(l, ran, r.left);
    var t := BalanceNode(ran, l, r.left);
    n.left := t;
    BalanceKeepsNodes(l, Cell(ran, old(ran.elm)), r.left);
    assert allocated(Nodes(Balance(l, Cell(ran, old(ran.elm)), r.left)));
  }

  /** The same to the right. */
  method LowerRight<E>(ran: AvlNode<E>, ghost l: Model<E>, ghost r: Model<E>, ghost bound: nat) returns (n: AvlNode<E>)
    requires Shape(ran.left, l) && Shape(ran.right, r) && Apart(l, ran, r)
    requires l.Node? && Avl(r) && Avl(l.right) && Work(l.right, r) < bound
    modifies {ran} + Nodes(l) + Nodes(r)
    ensures n == l.cell.ref && n.elm == l.cell.elm
    ensures Shape(n.right, Balance(l.right, Cell(ran, old(ran.elm)), r)) && Shape(n.left, l.left)
    decreases bound, 0
  {
    hide *;
    PartsLeft(l, ran, r);
    ShapeNode(ran.left, l);
    n := ran.left;
    assert allocated(Nodes(l.left)) && allocated(Nodes(l.right)) && allocated(Nodes(r));
    ran.left := n.right;
    MakeApart(l.right, ran, r);
    var t := BalanceNode(ran, l.right, r);
    n.right := t;
    BalanceKeepsNodes(l.right, Cell(ran, old(ran.elm)), r);
    assert allocated(Nodes(Balance(l.right, Cell(ran, old(ran.elm)), r)));
  }

  /** rd_avl_rotate. The ghost bound is the work of the balancing call that rotates. */
  method RotateLeft<E>(ran: AvlNode<E>, ghost l: Model<E>, ghost r: Model<E>, ghost bound: nat)
      returns (res: AvlNode<E>)
    requires Shape(ran.left, l) && Shape(ran.right, r) && Apart(l, ran, r)
    requires r.Node? && Avl(l) && Avl(r.left) && Avl(r.right)
    requires Work(l, r.left) < bound && Work(Balance(l, Cell(ran, ran.elm), r.left), r.right) < bound
    modifies {ran} + Nodes(l) + Nodes(r)
    ensures Shape(res, Balance(Balance(l, Cell(ran, old(ran.elm)), r.left), r.cell, r.right))
    decreases bound, 1
  {
    hide *;
    ghost var inner := Balance(l, Cell(ran, ran.elm), r.left);
    PartsRight(l, ran, r);
    BalanceKeepsNodes(l, Cell(ran, ran.elm), r.left);
    MakeApart(inner, r.cell.ref, r.right);
    var n := LowerLeft(ran, l, r, bound);
    res := BalanceNode(n, inner, r.right);
  }

  method RotateRight<E>(ran: AvlNode<E>, ghost l: Model<E>, ghost r: Model<E>, ghost bound: nat)
      returns (res: AvlNode<E>)
    requires Shape(ran.left, l) && Shape(ran.right, r) && Apart(l, ran, r)
    requires l.Node? && Avl(r) && Avl(l.left) && Avl(l.right)
    requires Work(l.right, r) < bound && Work(l.left, Balance(l.right, Cell(ran, ran.elm), r)) < bound
    modifies {ran} + Nodes(l) + Nodes(r)
    ensures Shape(res, Balance(l.left, l.cell, Balance(l.right, Cell(ran, old(ran.elm)), r)))
    decreases bound, 1
  {
    hide *;
    ghost var inner := Balance(l.right, Cell(ran, ran.elm), r);
    PartsLeft(l, ran, r);
    BalanceKeepsNodes(l.right, Cell(ran, ran.elm), r);
    MakeApart(l.left, l.cell.ref, inner);
    var n := LowerRight(ran, l, r, bound);
    res := BalanceNode(n, l.left, inner);
  }

  /** rd_avl_balance_node: ran's own stored height is irrelevant, its subtrees may have any gap. */
  method BalanceNode<E>(ran: AvlNode<E>, ghost l: Model<E>, ghost r: Model<E>) returns (res: AvlNode<E>)
    requires Shape(ran.left, l) && Shape(ran.right, r) && Apart(l, ran, r)
    requires Avl(l) && Avl(r)
    modifies {ran} + Nodes(l) + Nodes(r)
    ensures Shape(res, Balance(l, Cell(ran, old(ran.elm)), r))
    decreases Work(l, r), 2
  {
    hide *;
    ghost var x := Cell(ran, ran.elm);
    ApartParts(l, ran, r);
    HeightsSeen(ran.left, l);
    HeightsSeen(ran.right, r);
    assert allocated(Nodes(l)) && allocated(Nodes(r));
    var d := NodeHeight(ran.left) - NodeHeight(ran.right);
    if d < -1 {
      RaiseLeftSteps(l, x, r);
      TurnRightSteps(l, r);
      PartsRight(l, ran, r);
      ShapeNode(ran.right, r);
      HeightsSeen(ran.right.left, r.left);
      HeightsSeen(ran.right.right, r.right);
      if NodeHeight(ran.right.left) - NodeHeight(ran.right.right) > 0 {
        MakeApart(r.left, ran.right, r.right);
        var t := RotateRight(ran.right, r.left, r.right, Work(l, r));
        ran.right := t;
      }
      MakeApart(l, ran, TurnedRight(r));
      res := RotateLeft(ran, l, TurnedRight(r), Work(l, r));
    } else if d > 1 {
      RaiseRightSteps(l, x, r);
      TurnLeftSteps(l, r);
      PartsLeft(l, ran, r);
      ShapeNode(ran.left, l);
      HeightsSeen(ran.left.left, l.left);
      HeightsSeen(ran.left.right, l.right);
      if NodeHeight(ran.left.left) - NodeHeight(ran.left.right) < 0 {
        MakeApart(l.left, ran.left, l.right);
        var t := RotateLeft(ran.left, l.left, l.right, Work(l, r));
        ran.left := t;
      }
      MakeApart(TurnedLeft(l), ran, r);
      res := RotateRight(ran, TurnedLeft(l), r, Work(l, r));
    } else {
      ran.height := 0;
      HeightsSeen(ran.left, l);
      var h := NodeHeight(ran.left);
      if h > ran.height {
        ran.height := h;
      }
      HeightsSeen(ran.right, r);
      h := NodeHeight(ran.right);
      if h > ran.height {
        ran.height := h;
      }
      ran.height := ran.height + 1;
      res := ran;
      EvenShape(ran, l, r);
    }
  }

  lemma EvenShape<E>(n: AvlNode<E>, l: Model<E>, r: Model<E>)
    requires Shape(n.left, l) && Shape(n.right, r) && Avl(l) && Avl(r)
    requires -1 <= Height(l) - Height(r) <= 1
    requires n.height == 1 + if Height(r) > Height(l) then Height(r) else Height(l)
    ensures Shape(n, Balance(l, Cell(n, n.elm), r))
  {
    hide Balance, Avl, Work;
    assert Balance(l, Cell(n, n.elm), r) == Mk(l, Cell(n, n.elm), r);
  }

  lemma HeightsSeen<E>(n: AvlNode?<E>, t: Model<E>)
    requires Shape(n, t)
    ensures NodeHeight(n) == Height(t)
  {
  }

  /** Why rotating a right child first costs less than the balancing call that does so. */
  lemma TurnRightSteps<E>(l: Model<E>, r: Model<E>)
    requires Avl(l) && Avl(r) && Height(l) + 1 < Height(r)
    ensures Nodes(TurnedRight(r)) == Nodes(r) && (Distinct(TurnedRight(r)) <==> Distinct(r))
    ensures Height(r.left) <= Height(r.right) ==> TurnedRight(r) == r
    ensures Height(r.left) > Height(r.right) ==>
              && r.left.Node? && Avl(r.right) && Avl(r.left.left) && Avl(r.left.right)
              && Work(r.left.right, r.right) < Work(l, r)
              && Work(r.left.left, Balance(r.left.right, r.cell, r.right)) < Work(l, r)
              && Balance(r.left.left, r.left.cell, Balance(r.left.right, r.cell, r.right)) == TurnedRight(r)
  {
    SkewRightShape(r);
    assert TurnRight(r) == TurnedRight(r);
    TurnedRightKeepsCells(r);
    hide Avl, Cells, Distinct, Nodes, RaiseLeft, RaiseRight;
    NodesAreCells(r);
    NodesAreCells(TurnedRight(r));
  }

  /** Why rotating a left child first costs less than the balancing call that does so. */
  lemma TurnLeftSteps<E>(l: Model<E>, r: Model<E>)
    requires Avl(l) && Avl(r) && Height(r) + 1 < Height(l)
    ensures Nodes(TurnedLeft(l)) == Nodes(l) && (Distinct(TurnedLeft(l)) <==> Distinct(l))
    ensures Height(l.right) <= Height(l.left) ==> TurnedLeft(l) == l
    ensures Height(l.right) > Height(l.left) ==>
              && l.right.Node? && Avl(l.left) && Avl(l.right.left) && Avl(l.right.right)
              && Work(l.left, l.right.left) < Work(l, r)
              && Work(Balance(l.left, l.cell, l.right.left), l.right.right) < Work(l, r)
              && Balance(Balance(l.left, l.cell, l.right.left), l.right.cell, l.right.right) == TurnedLeft(l)
  {
    SkewLeftShape(l);
    assert TurnLeft(l) == TurnedLeft(l);
    TurnedLeftKeepsCells(l);
    hide Avl, Cells, Distinct, Nodes, RaiseLeft, RaiseRight;
    NodesAreCells(l);
    NodesAreCells(TurnedLeft(l));
  }

  // ---------- Insertion ----------

  /** The node an insertion or search found, or null. */
  ghost function NodeOf<E>(c: Option<Cell<AvlNode<E>, E>>): AvlNode?<E> {
    match c case None => null case Some(cell) => cell.ref
  }

  ghost function Gone<E>(c: Option<Cell<AvlNode<E>, E>>): set<AvlNode<E>> {
    match c case None => {} case Some(cell) => {cell.ref}
  }

  lemma TreeParts<E>(t: Model<E>)
    requires t.Node? && Distinct(t)
    ensures Distinct(t.left) && Distinct(t.right) && Nodes(t) == Nodes(t.left) + {t.cell.ref} + Nodes(t.right)
    ensures Nodes(t.left) !! Nodes(t.right) && t.cell.ref !in Nodes(t.left) && t.cell.ref !in Nodes(t.right)
  {
  }

  lemma Swap<T>(a: set<T>, x: T, b: set<T>, g: set<T>, c: set<T>)
    requires g <= a && a !! b && x !in a
    ensures (a - g + c) + {x} + b == (a + {x} + b) - g + c
    ensures b + {x} + (a - g + c) == (b + {x} + a) - g + c
  {
  }

  /** Insertion adds the new node to the node set and takes the replaced one, if any, out of it. */
  lemma {:induction false} InsertNodes<E>(cmp: (E, E) -> int, t: Model<E>, c: Cell<AvlNode<E>, E>)
    requires Avl(t) && Distinct(t) && c.ref !in Nodes(t)
    ensures Distinct(Insert(cmp, t, c).0)
    ensures Gone(Insert(cmp, t, c).1) <= Nodes(t)
    ensures Nodes(Insert(cmp, t, c).0) == Nodes(t) - Gone(Insert(cmp, t, c).1) + {c.ref}
    ensures Gone(Insert(cmp, t, c).1) !! Nodes(Insert(cmp, t, c).0)
  {
    if t.Node? {
      TreeParts(t);
      if cmp(c.elm, t.cell.elm) < 0 {
        var sub := Insert(cmp, t.left, c);
        assert Insert(cmp, t, c) == (Balance(sub.0, t.cell, t.right), sub.1);
        assert Avl(t.left) && Avl(t.right);
        hide *;
        InsertNodes(cmp, t.left, c);
        BalanceKeepsNodes(sub.0, t.cell, t.right);
        Swap(Nodes(t.left), t.cell.ref, Nodes(t.right), Gone(sub.1), {c.ref});
      } else if cmp(c.elm, t.cell.elm) > 0 {
        var sub := Insert(cmp, t.right, c);
        assert Insert(cmp, t, c) == (Balance(t.left, t.cell, sub.0), sub.1);
        assert Avl(t.left) && Avl(t.right);
        hide *;
        InsertNodes(cmp, t.right, c);
        BalanceKeepsNodes(t.left, t.cell, sub.0);
        Swap(Nodes(t.right), t.cell.ref, Nodes(t.left), Gone(sub.1), {c.ref});
      }
    }
  }

  /** rd_avl_insert_node for a node that was just cleared and is not in the tree. */
  method InsertNode<E>(cmp: (E, E) -> int, parent: AvlNode?<E>, ran: AvlNode<E>, ghost t: Model<E>)
    returns (res: AvlNode<E>, existing: AvlNode?<E>)
    requires Shape(parent, t) && Avl(t) && Distinct(t) && ran !in Nodes(t)
    requires ran.left == null && ran.right == null && ran.height == 0
    modifies {ran} + Nodes(t)
    ensures Shape(res, Insert(cmp, t, Cell(ran, old(ran.elm))).0)
    ensures Carries(existing, Insert(cmp, t, Cell(ran, old(ran.elm))).1)
    decreases t, 1
  {
    if parent == null {
      return ran, null;
    }
    ShapeNode(parent, t);
    var r := cmp(ran.elm, parent.elm);
    if r == 0 {
      ran.left := parent.left;
      ran.right := parent.right;
      ran.height := parent.height;
      assert allocated(Nodes(t.left)) && allocated(Nodes(t.right));
      return ran, parent;
    }
    if r < 0 {
      res, existing := InsertLeft(cmp, parent, ran, t);
    } else {
      res, existing := InsertRight(cmp, parent, ran, t);
    }
  }

  /** n is the node of c, or null when there is none, and still carries c's element. */
  ghost predicate Carries<E>(n: AvlNode?<E>, c: Option<Cell<AvlNode<E>, E>>)
    reads Gone(c)
  {
    match c case None => n == null case Some(cell) => n == cell.ref && cell.ref.elm == cell.elm
  }

  lemma InsertSteps<E>(cmp: (E, E) -> int, t: Model<E>, c: Cell<AvlNode<E>, E>)
    requires t.Node? && Avl(t)
    ensures Avl(t.left) && Avl(t.right)
    ensures cmp(c.elm, t.cell.elm) < 0 ==>
              Insert(cmp, t, c) == (Balance(Insert(cmp, t.left, c).0, t.cell, t.right), Insert(cmp, t.left, c).1)
    ensures cmp(c.elm, t.cell.elm) > 0 ==>
              Insert(cmp, t, c) == (Balance(t.left, t.cell, Insert(cmp, t.right, c).0), Insert(cmp, t.right, c).1)
  {
  }

  /** The recursive case below the left child (rdavl.c:121-123). */
  method InsertLeft<E>(cmp: (E, E) -> int, parent: AvlNode<E>, ran: AvlNode<E>, ghost t: Model<E>)
    returns (res: AvlNode<E>, existing: AvlNode?<E>)
    requires Shape(parent, t) && t.Node? && Avl(t) && Distinct(t) && ran !in Nodes(t)
    requires ran.left == null && ran.right == null && ran.height == 0 && cmp(ran.elm, t.cell.elm) < 0
    modifies {ran} + Nodes(t)
    ensures Shape(res, Insert(cmp, t, Cell(ran, old(ran.elm))).0)
    ensures Carries(existing, Insert(cmp, t, Cell(ran, old(ran.elm))).1)
    decreases t, 0
  {
    hide *;
    InsertSteps(cmp, t, Cell(ran, ran.elm));
    ghost var sub := Insert(cmp, t.left, Cell(ran, ran.elm));
    ShapeNode(parent, t);
    TreeParts(t);
    InsertNodes(cmp, t.left, Cell(ran, ran.elm));
    assert allocated(Nodes(t.left)) && allocated(Nodes(t.right)) && allocated(Nodes(sub.0)) && allocated(Gone(sub.1));
    var l;
    l, existing := InsertNode(cmp, parent.left, ran, t.left);
    parent.left := l;
    MakeApart(sub.0, parent, t.right);
    res := BalanceNode(parent, sub.0, t.right);
  }

  /** The recursive case below the right child. */
  method InsertRight<E>(cmp: (E, E) -> int, parent: AvlNode<E>, ran: AvlNode<E>, ghost t: Model<E>)
    returns (res: AvlNode<E>, existing: AvlNode?<E>)
    requires Shape(parent, t) && t.Node? && Avl(t) && Distinct(t) && ran !in Nodes(t)
    requires ran.left == null && ran.right == null && ran.height == 0 && cmp(ran.elm, t.cell.elm) > 0
    modifies {ran} + Nodes(t)
    ensures Shape(res, Insert(cmp, t, Cell(ran, old(ran.elm))).0)
    ensures Carries(existing, Insert(cmp, t, Cell(ran, old(ran.elm))).1)
    decreases t, 0
  {
    hide *;
    InsertSteps(cmp, t, Cell(ran, ran.elm));
    ghost var sub := Insert(cmp, t.right, Cell(ran, ran.elm));
    ShapeNode(parent, t);
    TreeParts(t);
    InsertNodes(cmp, t.right, Cell(ran, ran.elm));
    assert allocated(Nodes(t.left)) && allocated(Nodes(t.right)) && allocated(Nodes(sub.0)) && allocated(Gone(sub.1));
    var r;
    r, existing := InsertNode(cmp, parent.right, ran, t.right);
    parent.right := r;
    MakeApart(t.left, parent, sub.0);
    res := BalanceNode(parent, t.left, sub.0);
  }

  // ---------- Removal ----------

  lemma MoveNodes<E>(dst: Model<E>, src: Model<E>, dir: Dir)
    requires Avl(dst) && Avl(src) && Distinct(dst) && Distinct(src) && Nodes(dst) !! Nodes(src)
    ensures Distinct(Move(dst, src, dir)) && Nodes(Move(dst, src, dir)) == Nodes(dst) + Nodes(src)
  {
    hide *;
    MoveConcatenates(dst, src, dir);
    NodesAreCells(dst);
    NodesAreCells(src);
    NodesAreCells(Move(dst, src, dir));
    RefsConcat(Cells(dst), Cells(src));
    RefsConcat(Cells(src), Cells(dst));
  }

  /** rd_avl_move. */
  method MoveNode<E>(dst: AvlNode?<E>, src: AvlNode?<E>, dir: Dir, ghost d: Model<E>, ghost s: Model<E>)
      returns (res: AvlNode?<E>)
    requires Shape(dst, d) && Shape(src, s) && Avl(d) && Avl(s)
    requires Distinct(d) && Distinct(s) && Nodes(d) !! Nodes(s)
    modifies Nodes(d) + Nodes(s)
    ensures Shape(res, Move(d, s, dir))
    decreases d
  {
    hide Shape, Balance, Avl, Distinct, Nodes;
    ShapeNode(dst, d);
    if dst == null {
      return src;
    }
    MoveSteps(d, s, dir);
    TreeParts(d);
    assert allocated(Nodes(d.left)) && allocated(Nodes(d.right)) && allocated(Nodes(s));
    hide *;
    if dir == Left {
      MoveNodes(d.left, s, dir);
      assert allocated(Nodes(Move(d.left, s, dir)));
      var t := MoveNode(dst.left, src, dir, d.left, s);
      dst.left := t;
      MakeApart(Move(d.left, s, dir), dst, d.right);
      res := BalanceNode(dst, Move(d.left, s, dir), d.right);
    } else {
      MoveNodes(d.right, s, dir);
      assert allocated(Nodes(Move(d.right, s, dir)));
      var t := MoveNode(dst.right, src, dir, d.right, s);
      dst.right := t;
      MakeApart(d.left, dst, Move(d.right, s, dir));
      res := BalanceNode(dst, d.left, Move(d.right, s, dir));
    }
  }

  /** rd_avl_remove_node0: joins the node's subtrees and unlinks it from both. */
  method RemoveNode<E>(ran: AvlNode<E>, ghost l: Model<E>, ghost r: Model<E>) returns (res: AvlNode?<E>)
    requires Shape(ran.left, l) && Shape(ran.right, r) && Apart(l, ran, r) && Avl(l) && Avl(r)
    modifies {ran} + Nodes(l) + Nodes(r)
    ensures Shape(res, Move(l, r, Right))
    ensures ran.left == null && ran.right == null && ran.elm == old(ran.elm)
  {
    hide *;
    ApartParts(l, ran, r);
    MoveNodes(l, r, Right);
    assert allocated(Nodes(l)) && allocated(Nodes(r)) && allocated(Nodes(Move(l, r, Right)));
    res := MoveNode(ran.left, ran.right, Right, l, r);
    ran.right := null;
    ran.left := null;
  }

  lemma RemoveSteps<E>(cmp: (E, E) -> int, t: Model<E>, e: E)
    requires t.Node? && Avl(t)
    ensures Avl(t.left) && Avl(t.right)
    ensures cmp(e, t.cell.elm) == 0 ==>
      Remove(cmp, t, e) == Move(t.left, t.right, Right) && Find(cmp, t, e) == Some(t.cell)
    ensures cmp(e, t.cell.elm) < 0 ==>
              Remove(cmp, t, e) == Balance(Remove(cmp, t.left, e), t.cell, t.right)
              && Find(cmp, t, e) == Find(cmp, t.left, e)
    ensures cmp(e, t.cell.elm) > 0 ==>
              Remove(cmp, t, e) == Balance(t.left, t.cell, Remove(cmp, t.right, e))
              && Find(cmp, t, e) == Find(cmp, t.right, e)
  {
  }

  lemma TakeOut<T>(a: set<T>, x: T, b: set<T>)
    requires x !in a && x !in b
    ensures a + b == a + {x} + b - {x}
    ensures {x} <= a + {x} + b
  {
  }

  /** Removal takes exactly the matching node out of the node set. */
  lemma {:induction false} RemoveNodes<E>(cmp: (E, E) -> int, t: Model<E>, e: E)
    requires Avl(t) && Distinct(t)
    ensures Distinct(Remove(cmp, t, e))
    ensures Gone(Find(cmp, t, e)) <= Nodes(t)
    ensures Nodes(Remove(cmp, t, e)) == Nodes(t) - Gone(Find(cmp, t, e))
  {
    if t.Node? {
      TreeParts(t);
      RemoveSteps(cmp, t, e);
      if cmp(e, t.cell.elm) == 0 {
        assert Gone(Find(cmp, t, e)) == {t.cell.ref};
        hide *;
        MoveNodes(t.left, t.right, Right);
        TakeOut(Nodes(t.left), t.cell.ref, Nodes(t.right));
      } else if cmp(e, t.cell.elm) < 0 {
        hide *;
        RemoveNodes(cmp, t.left, e);
        BalanceKeepsNodes(Remove(cmp, t.left, e), t.cell, t.right);
        TakeOutLeft(Nodes(t.left), t.cell.ref, Nodes(t.right), Gone(Find(cmp, t.left, e)));
      } else {
        hide *;
        RemoveNodes(cmp, t.right, e);
        BalanceKeepsNodes(t.left, t.cell, Remove(cmp, t.right, e));
        TakeOutRight(Nodes(t.left), t.cell.ref, Nodes(t.right), Gone(Find(cmp, t.right, e)));
      }
    }
  }

  lemma TakeOutLeft<T>(a: set<T>, x: T, b: set<T>, g: set<T>)
    requires g <= a && a !! b && x !in a
    ensures a - g + {x} + b == a + {x} + b - g && g <= a + {x} + b && a - g !! b && x !in a - g
  {
  }

  lemma TakeOutRight<T>(a: set<T>, x: T, b: set<T>, g: set<T>)
    requires g <= b && a !! b && x !in b
    ensures a + {x} + (b - g) == a + {x} + b - g && g <= a + {x} + b && a !! b - g && x !in b - g
  {
  }

  /** n, if any, is linked to nothing any more and still carries c's element. */
  ghost predicate Unlinked<E>(c: Option<Cell<AvlNode<E>, E>>)
    reads Gone(c)
  {
    match c
    case None => true
    case Some(cell) => cell.ref.left == null && cell.ref.right == null && cell.ref.elm == cell.elm
  }

  /** rd_avl_remove_elm0. */
  method RemoveElm<E>(cmp: (E, E) -> int, parent: AvlNode?<E>, e: E, ghost t: Model<E>) returns (res: AvlNode?<E>)
    requires Shape(parent, t) && Avl(t) && Distinct(t)
    modifies Nodes(t)
    ensures Shape(res, Remove(cmp, t, e))
    ensures Unlinked(Find(cmp, t, e))
    decreases t, 1
  {
    ShapeNode(parent, t);
    if parent == null {
      return null;
    }
    hide Shape, Balance, Avl, Distinct, Nodes, Remove, Move, Find;
    RemoveSteps(cmp, t, e);
    TreeParts(t);
    var r := cmp(e, parent.elm);
    if r == 0 {
      MakeApart(t.left, parent, t.right);
      res := RemoveNode(parent, t.left, t.right);
    } else if r < 0 {
      res := RemoveLeft(cmp, parent, e, t);
    } else {
      res := RemoveRight(cmp, parent, e, t);
    }
  }

  method RemoveLeft<E>(cmp: (E, E) -> int, parent: AvlNode<E>, e: E, ghost t: Model<E>) returns (res: AvlNode?<E>)
    requires Shape(parent, t) && t.Node? && Avl(t) && Distinct(t) && cmp(e, t.cell.elm) < 0
    modifies Nodes(t)
    ensures Shape(res, Remove(cmp, t, e))
    ensures Unlinked(Find(cmp, t, e))
    decreases t, 0
  {
    hide *;
    ShapeNode(parent, t);
    TreeParts(t);
    RemoveSteps(cmp, t, e);
    RemoveNodes(cmp, t.left, e);
    ghost var l := Remove(cmp, t.left, e);
    assert allocated(Nodes(t.left)) && allocated(Nodes(t.right)) && allocated(Nodes(l)) &&
      allocated(Gone(Find(cmp, t.left, e)));
    var n := RemoveElm(cmp, parent.left, e, t.left);
    parent.left := n;
    MakeApart(l, parent, t.right);
    res := BalanceNode(parent, l, t.right);
  }

  method RemoveRight<E>(cmp: (E, E) -> int, parent: AvlNode<E>, e: E, ghost t: Model<E>) returns (res: AvlNode?<E>)
    requires Shape(parent, t) && t.Node? && Avl(t) && Distinct(t) && cmp(e, t.cell.elm) > 0
    modifies Nodes(t)
    ensures Shape(res, Remove(cmp, t, e))
    ensures Unlinked(Find(cmp, t, e))
    decreases t, 0
  {
    hide *;
    ShapeNode(parent, t);
    TreeParts(t);
    RemoveSteps(cmp, t, e);
    RemoveNodes(cmp, t.right, e);
    ghost var r := Remove(cmp, t.right, e);
    assert allocated(Nodes(t.left)) && allocated(Nodes(t.right)) && allocated(Nodes(r)) &&
      allocated(Gone(Find(cmp, t.right, e)));
    var n := RemoveElm(cmp, parent.right, e, t.right);
    parent.right := n;
    MakeApart(t.left, parent, r);
    res := BalanceNode(parent, t.left, r);
  }

  // ---------- Search ----------

  /** rd_avl_find_node; visits counts the nodes whose element was compared with e. */
  method FindNode<E>(cmp: (E, E) -> int, begin: AvlNode?<E>, e: E, ghost t: Model<E>)
      returns (res: AvlNode?<E>, ghost visits: nat)
    requires Shape(begin, t)
    ensures res == NodeOf(Find(cmp, t, e)) && Carries(res, Find(cmp, t, e))
    ensures visits == Visited(cmp, t, e)
    decreases t
  {
    if begin == null {
      return null, 0;
    }
    var r := cmp(e, begin.elm);
    if r == 0 {
      return begin, 1;
    } else if r < 0 {
      res, visits := FindNode(cmp, begin.left, e, t.left);
      visits := visits + 1;
    } else {
      res, visits := FindNode(cmp, begin.right, e, t.right);
      visits := visits + 1;
    }
  }

  // ---------- Traversal ----------

  /** The order in which rd_avl_foreach_node hands out the nodes: both subtrees, then the node. */
  ghost function Postorder<R, E>(t: Tree<R, E>): seq<Cell<R, E>> {
    if t.Leaf? then [] else Postorder(t.left) + Postorder(t.right) + [t.cell]
  }

  /** Every node is handed out exactly once. */
  lemma {:induction false} PostorderIsComplete<R, E>(t: Tree<R, E>)
    ensures multiset(Postorder(t)) == multiset(Cells(t))
  {
    if t.Node? {
      PostorderIsComplete(t.left);
      PostorderIsComplete(t.right);
    }
  }

  predicate SubtreeOf<R(==), E(==)>(u: Tree<R, E>, t: Tree<R, E>) {
    u == t || (t.Node? && (SubtreeOf(u, t.left) || SubtreeOf(u, t.right)))
  }

  /**
    Every node is handed out directly behind all nodes of its left subtree and then all of its right one;
    by PostorderIsComplete nothing else is handed out in between.
   */
  lemma {:induction false} SubtreesFirst<R, E>(t: Tree<R, E>, u: Tree<R, E>)
      returns (before: seq<Cell<R, E>>, after: seq<Cell<R, E>>)
    requires u.Node? && SubtreeOf(u, t)
    ensures Postorder(t) == before + Postorder(u.left) + Postorder(u.right) + [u.cell] + after
    decreases t
  {
    hide Postorder;
    PostorderNode(t);
    if u == t {
      before, after := [], [];
    } else if SubtreeOf(u, t.left) {
      before, after := SubtreesFirst(t.left, u);
      after := after + Postorder(t.right) + [t.cell];
    } else {
      before, after := SubtreesFirst(t.right, u);
      before, after := Postorder(t.left) + before, after + [t.cell];
    }
  }

  lemma PostorderNode<R, E>(t: Tree<R, E>)
    requires t.Node?
    ensures Postorder(t) == Postorder(t.left) + Postorder(t.right) + [t.cell]
  {
  }

  /** rd_avl_foreach_node; calls collects the nodes the callback is run on, in order. */
  method ForeachNode<E>(ran: AvlNode<E>, ghost t: Model<E>) returns (calls: seq<AvlNode<E>>)
    requires Shape(ran, t)
    ensures |calls| == |Postorder(t)| && forall i :: 0 <= i < |calls| ==> calls[i] == Postorder(t)[i].ref
    decreases t
  {
    hide Shape;
    ShapeNode(ran, t);
    ShapeNode(ran.left, t.left);
    ShapeNode(ran.right, t.right);
    assert allocated(Nodes(t.right));
    calls := [];
    if ran.left != null {
      calls := ForeachNode(ran.left, t.left);
    }
    if ran.right != null {
      var more := ForeachNode(ran.right, t.right);
      calls := calls + more;
    }
    calls := calls + [ran];
  }
}

/**
  AVL tree of rdavl.c as a function on trees: balancing at any height gap, insertion,
  removal by hanging one subtree below the other, and search.
  A cell is what a node carries: its identity and the element it points to.
 */
module AvlTree {
  import opened Basics

  datatype Cell<R, E> = Cell(ref: R, elm: E)

  /** A node stores its height (ran_height); a missing child counts as height 0. */
  datatype Tree<R, E> = Leaf | Node(left: Tree<R, E>, cell: Cell<R, E>, h: nat, right: Tree<R, E>)

  function Max(a: nat, b: nat): nat {
    if a > b then a else b
  }

  /** RD_AVL_NODE_HEIGHT: the stored height. */
  function Height<R, E>(t: Tree<R, E>): (h: nat)
    ensures h > 0 ==> t.Node?
  {
    if t.Leaf? then 0 else t.h
  }

  /** A node whose height has just been recomputed from its children (rdavl.c:84-94). */
  function Mk<R, E>(l: Tree<R, E>, x: Cell<R, E>, r: Tree<R, E>): Tree<R, E> {
    Node(l, x, 1 + Max(Height(l), Height(r)), r)
  }

  function Gap<R, E>(l: Tree<R, E>, r: Tree<R, E>): nat {
    if Height(l) < Height(r) then Height(r) - Height(l) else Height(l) - Height(r)
  }

  /** A node linked in by an insertion and not balanced since: childless, with stored height 0. */
  predicate Fresh<R, E>(t: Tree<R, E>) {
    t.Node? && t.h == 0 && t.left.Leaf? && t.right.Leaf?
  }

  /** What the code keeps: stored heights follow the children's, or are those of a fresh node. */
  ghost predicate Avl<R, E>(t: Tree<R, E>) {
    t.Node? ==>
      && Avl(t.left) && Avl(t.right) && Gap(t.left, t.right) <= 1
      && (t == Mk(t.left, t.cell, t.right) || Fresh(t))
  }

  function Cells<R, E>(t: Tree<R, E>): seq<Cell<R, E>> {
    match t
    case Leaf => []
    case Node(l, c, _, r) => Cells(l) + [c] + Cells(r)
  }

  lemma CellsOf<R, E>(t: Tree<R, E>)
    requires t.Node?
    ensures Cells(t) == Cells(t.left) + [t.cell] + Cells(t.right)
  {
  }

  lemma Children<R, E>(t: Tree<R, E>)
    requires Avl(t) && Height(t) > 0
    ensures Avl(t.left) && Avl(t.right) && t == Mk(t.left, t.cell, t.right)
    ensures || (Height(t) == Height(t.left) + 1 && Height(t.right) <= Height(t.left) <= Height(t.right) + 1)
            || (Height(t) == Height(t.right) + 1 == Height(t.left) + 2)
  {
  }

  lemma Join<R, E>(l: Tree<R, E>, x: Cell<R, E>, r: Tree<R, E>)
    requires Avl(l) && Avl(r)
    ensures Height(Mk(l, x, r)) == if Height(l) > Height(r) then Height(l) + 1 else Height(r) + 1
    ensures Gap(l, r) <= 1 ==> Avl(Mk(l, x, r))
  {
  }

  // ---------- The measure of the mutual recursion ----------

  /** Work a right child hides: its inner subtree is the taller one (1), and itself leans outwards (2). */
  ghost function SkewRight<R, E>(r: Tree<R, E>): (k: nat)
    requires Height(r) > 1
    ensures k <= 2
  {
    if Height(r.left) <= Height(r.right) then 0
    else if Height(r.left.left) + 1 == Height(r.left) then 1 else 2
  }

  /** The same for a left child. */
  ghost function SkewLeft<R, E>(l: Tree<R, E>): (k: nat)
    requires Height(l) > 1
    ensures k <= 2
  {
    if Height(l.right) <= Height(l.left) then 0
    else if Height(l.right.right) + 1 == Height(l.right) then 1 else 2
  }

  /** Termination measure: the gap first, then the skew of the heavier child. */
  ghost function Work<R, E>(l: Tree<R, E>, r: Tree<R, E>): nat {
    3 * Gap(l, r) +
    if Height(l) + 1 < Height(r) then SkewRight(r)
    else if Height(r) + 1 < Height(l) then SkewLeft(l)
    else 0
  }

  // ---------- Balancing ----------

  /** RD_AVL_NODE_DELTA: positive when the left subtree is the taller one. */
  ghost function Delta<R, E>(l: Tree<R, E>, r: Tree<R, E>): int {
    Height(l) - Height(r)
  }

  /** rd_avl_balance_node with rd_avl_rotate written in place, for any two AVL trees. */
  ghost function Balance<R, E>(l: Tree<R, E>, x: Cell<R, E>, r: Tree<R, E>): (t: Tree<R, E>)
    requires Avl(l) && Avl(r)
    ensures Avl(t)
    ensures Max(Height(l), Height(r)) <= Height(t) <= Max(Height(l), Height(r)) + 1
    ensures Gap(l, r) <= 1 ==> t == Mk(l, x, r)
    ensures Work(l, r) == 6 ==> t == Textbook(l, x, r)
    decreases Work(l, r), 1
  {
    if Delta(l, r) < -1 then RaiseLeft(l, x, r)
    else if Delta(l, r) > 1 then RaiseRight(l, x, r)
    else Mk(l, x, r)
  }

  /** What a textbook AVL tree does with a gap of two: one single or one double rotation. */
  ghost function Textbook<R, E>(l: Tree<R, E>, x: Cell<R, E>, r: Tree<R, E>): Tree<R, E>
    requires Gap(l, r) == 2
  {
    if Height(l) < Height(r) then
      if Height(r.left) <= Height(r.right) then
        Mk(Mk(l, x, r.left), r.cell, r.right)
      else
        Mk(Mk(l, x, r.left.left), r.left.cell, Mk(r.left.right, r.cell, r.right))
    else
      if Height(l.right) <= Height(l.left) then
        Mk(l.left, l.cell, Mk(l.right, x, r))
      else
        Mk(Mk(l.left, l.cell, l.right.left), l.right.cell, Mk(l.right.right, x, r))
  }

  // ---------- A heavy right side ----------

  /** What rd_avl_rotate makes of a right child: it straightens skew 1 and undoes itself on skew 2. */
  ghost function TurnedRight<R, E>(r: Tree<R, E>): (t: Tree<R, E>)
    requires Height(r) > 1
  {
    if SkewRight(r) == 1 then Mk(r.left.left, r.left.cell, Mk(r.left.right, r.cell, r.right)) else r
  }

  lemma SkewRightShape<R, E>(r: Tree<R, E>)
    requires Avl(r) && Height(r) > 1
    ensures Avl(r.left) && Avl(r.right)
    ensures SkewRight(r) == 0 ==>
              Height(r.right) + 1 == Height(r) && Height(r) <= Height(r.left) + 2 <= Height(r) + 1
    ensures SkewRight(r) > 0 ==>
              && r.left.Node? && Avl(r.left.left) && Avl(r.left.right)
              && Height(r) == Height(r.left) + 1 == Height(r.right) + 2
    ensures SkewRight(r) == 1 ==>
              Height(r) == Height(r.left.left) + 2 && Height(r) <= Height(r.left.right) + 3 <= Height(r) + 1
    ensures SkewRight(r) == 2 ==>
              Height(r) == Height(r.left.left) + 3 == Height(r.left.right) + 2
  {
    hide Height, Avl;
    Children(r);
    if Height(r.left) > Height(r.right) {
      Children(r.left);
    }
  }

  lemma TurnedRightShape<R, E>(r: Tree<R, E>)
    requires Avl(r) && Height(r) > 1
    ensures TurnedRight(r).Node? && Avl(TurnedRight(r).left) && Avl(TurnedRight(r).right)
    ensures SkewRight(r) == 0 ==> TurnedRight(r) == r
    ensures if SkewRight(r) == 2
            then TurnedRight(r) == r && Height(r) == Height(r.left) + 1 == Height(r.right) + 2
            else && Height(TurnedRight(r).right) + 1 == Height(r)
                 && Height(r) <= Height(TurnedRight(r).left) + 2 <= Height(r) + 1
  {
    hide Height, Avl, SkewRight;
    SkewRightShape(r);
    if SkewRight(r) == 1 {
      Join(r.left.right, r.cell, r.right);
    }
  }

  lemma RaiseFitsLeft<R, E>(l: Tree<R, E>, x: Cell<R, E>, r: Tree<R, E>, inner: Tree<R, E>)
    requires Avl(l) && Avl(r) && Avl(inner) && Height(l) + 1 < Height(r)
    requires Height(TurnedRight(r).left) <= Height(inner) <= Height(TurnedRight(r).left) + 1
    requires Gap(l, TurnedRight(r).left) <= 1 ==> inner == Mk(l, x, TurnedRight(r).left)
    ensures Work(inner, TurnedRight(r).right) < Work(l, r)
    ensures Gap(inner, TurnedRight(r).right) <= 2
    ensures Height(inner) <= Height(r) && Height(TurnedRight(r).right) < Height(r)
    ensures Height(inner) + 1 >= Height(r) || Height(TurnedRight(r).right) + 1 == Height(r)
    ensures Gap(inner, TurnedRight(r).right) == 2 ==> Height(inner) == Height(r)
  {
    hide Height, Avl, TurnedRight;
    TurnedRightShape(r);
    if SkewRight(r) == 2 && Height(l) + 2 == Height(r) {
      SkewRightShape(r);
      Join(l, x, r.left);
    }
  }

  /** The right-heavy branch of rd_avl_balance_node. */
  ghost function RaiseLeft<R, E>(l: Tree<R, E>, x: Cell<R, E>, r: Tree<R, E>): (t: Tree<R, E>)
    requires Avl(l) && Avl(r) && Height(l) + 1 < Height(r)
    ensures Avl(t) && Height(r) <= Height(t) <= Height(r) + 1
    ensures Gap(l, r) == 2 && SkewRight(r) == 0 ==> t == Textbook(l, x, r)
    decreases Work(l, r), 0
  {
    hide Height, Avl, TurnedLeft, TurnedRight;
    TurnedRightShape(r);
    var r' := TurnRight(r);
    var inner := Balance(l, x, r'.left);
    RaiseFitsLeft(l, x, r, inner);
    Join(inner, r'.cell, r'.right);
    SkewRightShape(r);
    Balance(inner, r'.cell, r'.right)
  }

  /** The inner rotation of the right-heavy branch. */
  ghost function TurnRight<R, E>(r: Tree<R, E>): (t: Tree<R, E>)
    requires Avl(r) && Height(r) > 1
    ensures t == TurnedRight(r)
    decreases if SkewRight(r) > 0 then 6 else 5, 2
  {
    SkewRightShape(r);
    if Delta(r.left, r.right) > 0 then
      Balance(r.left.left, r.left.cell, Balance(r.left.right, r.cell, r.right))
    else r
  }

  // ---------- A heavy left side ----------

  /** What rd_avl_rotate makes of a left child: it straightens skew 1 and undoes itself on skew 2. */
  ghost function TurnedLeft<R, E>(l: Tree<R, E>): (t: Tree<R, E>)
    requires Height(l) > 1
  {
    if SkewLeft(l) == 1 then Mk(Mk(l.left, l.cell, l.right.left), l.right.cell, l.right.right) else l
  }

  lemma SkewLeftShape<R, E>(l: Tree<R, E>)
    requires Avl(l) && Height(l) > 1
    ensures Avl(l.left) && Avl(l.right)
    ensures SkewLeft(l) == 0 ==>
              Height(l.left) + 1 == Height(l) && Height(l) <= Height(l.right) + 2 <= Height(l) + 1
    ensures SkewLeft(l) > 0 ==>
              && l.right.Node? && Avl(l.right.left) && Avl(l.right.right)
              && Height(l) == Height(l.right) + 1 == Height(l.left) + 2
    ensures SkewLeft(l) == 1 ==>
              Height(l) == Height(l.right.right) + 2 && Height(l) <= Height(l.right.left) + 3 <= Height(l) + 1
    ensures SkewLeft(l) == 2 ==>
              Height(l) == Height(l.right.right) + 3 == Height(l.right.left) + 2
  {
    hide Height, Avl;
    Children(l);
    if Height(l.right) > Height(l.left) {
      Children(l.right);
    }
  }

  lemma TurnedLeftShape<R, E>(l: Tree<R, E>)
    requires Avl(l) && Height(l) > 1
    ensures TurnedLeft(l).Node? && Avl(TurnedLeft(l).left) && Avl(TurnedLeft(l).right)
    ensures SkewLeft(l) == 0 ==> TurnedLeft(l) == l
    ensures if SkewLeft(l) == 2
            then TurnedLeft(l) == l && Height(l) == Height(l.right) + 1 == Height(l.left) + 2
            else && Height(TurnedLeft(l).left) + 1 == Height(l)
                 && Height(l) <= Height(TurnedLeft(l).right) + 2 <= Height(l) + 1
  {
    hide Height, Avl, SkewLeft;
    SkewLeftShape(l);
    if SkewLeft(l) == 1 {
      Join(l.left, l.cell, l.right.left);
    }
  }

  lemma RaiseFitsRight<R, E>(l: Tree<R, E>, x: Cell<R, E>, r: Tree<R, E>, inner: Tree<R, E>)
    requires Avl(l) && Avl(r) && Avl(inner) && Height(r) + 1 < Height(l)
    requires Height(TurnedLeft(l).right) <= Height(inner) <= Height(TurnedLeft(l).right) + 1
    requires Gap(r, TurnedLeft(l).right) <= 1 ==> inner == Mk(TurnedLeft(l).right, x, r)
    ensures Work(TurnedLeft(l).left, inner) < Work(l, r)
    ensures Gap(inner, TurnedLeft(l).left) <= 2
    ensures Height(inner) <= Height(l) && Height(TurnedLeft(l).left) < Height(l)
    ensures Height(inner) + 1 >= Height(l) || Height(TurnedLeft(l).left) + 1 == Height(l)
    ensures Gap(inner, TurnedLeft(l).left) == 2 ==> Height(inner) == Height(l)
  {
    hide Height, Avl, TurnedLeft;
    TurnedLeftShape(l);
    if SkewLeft(l) == 2 && Height(r) + 2 == Height(l) {
      SkewLeftShape(l);
      Join(l.right, x, r);
    }
  }

  /** The left-heavy branch of rd_avl_balance_node. */
  ghost function RaiseRight<R, E>(l: Tree<R, E>, x: Cell<R, E>, r: Tree<R, E>): (t: Tree<R, E>)
    requires Avl(l) && Avl(r) && Height(r) + 1 < Height(l)
    ensures Avl(t) && Height(l) <= Height(t) <= Height(l) + 1
    ensures Gap(l, r) == 2 && SkewLeft(l) == 0 ==> t == Textbook(l, x, r)
    decreases Work(l, r), 0
  {
    hide Height, Avl, TurnedLeft, TurnedRight;
    TurnedLeftShape(l);
    var l' := TurnLeft(l);
    var inner := Balance(l'.right, x, r);
    RaiseFitsRight(l, x, r, inner);
    Join(l'.left, l'.cell, inner);
    SkewLeftShape(l);
    Balance(l'.left, l'.cell, inner)
  }

  /** The inner rotation of the left-heavy branch. */
  ghost function TurnLeft<R, E>(l: Tree<R, E>): (t: Tree<R, E>)
    requires Avl(l) && Height(l) > 1
    ensures t == TurnedLeft(l)
    decreases if SkewLeft(l) > 0 then 6 else 5, 2
  {
    SkewLeftShape(l);
    if Delta(l.left, l.right) < 0 then
      Balance(Balance(l.left, l.cell, l.right.left), l.right.cell, l.right.right)
    else l
  }

  /** The two balancing calls of rd_avl_rotate on a right-heavy node, and why each is smaller. */
  lemma RaiseLeftSteps<R, E>(l: Tree<R, E>, x: Cell<R, E>, r: Tree<R, E>)
    requires Avl(l) && Avl(r) && Height(l) + 1 < Height(r)
    ensures TurnedRight(r).Node? && Avl(TurnedRight(r).left) && Avl(TurnedRight(r).right)
    ensures Work(l, TurnedRight(r).left) < Work(l, r)
    ensures Work(Balance(l, x, TurnedRight(r).left), TurnedRight(r).right) < Work(l, r)
    ensures Balance(l, x, r) == Balance(Balance(l, x, TurnedRight(r).left), TurnedRight(r).cell, TurnedRight(r).right)
  {
    hide Height, Avl, TurnedRight;
    TurnedRightShape(r);
    RaiseFitsLeft(l, x, r, Balance(l, x, TurnedRight(r).left));
  }

  lemma TurnedRightKeepsCells<R, E>(r: Tree<R, E>)
    requires Height(r) > 1 && Avl(r)
    ensures Cells(TurnedRight(r)) == Cells(r)
  {
    if SkewRight(r) == 1 {
      CellsOf(r);
      CellsOf(r.left);
    }
  }

  /** The two balancing calls of rd_avl_rotate on a left-heavy node, and why each is smaller. */
  lemma RaiseRightSteps<R, E>(l: Tree<R, E>, x: Cell<R, E>, r: Tree<R, E>)
    requires Avl(l) && Avl(r) && Height(r) + 1 < Height(l)
    ensures TurnedLeft(l).Node? && Avl(TurnedLeft(l).left) && Avl(TurnedLeft(l).right)
    ensures Work(TurnedLeft(l).right, r) < Work(l, r)
    ensures Work(TurnedLeft(l).left, Balance(TurnedLeft(l).right, x, r)) < Work(l, r)
    ensures Balance(l, x, r) == Balance(TurnedLeft(l).left, TurnedLeft(l).cell, Balance(TurnedLeft(l).right, x, r))
  {
    hide Height, Avl, TurnedLeft;
    TurnedLeftShape(l);
    RaiseFitsRight(l, x, r, Balance(TurnedLeft(l).right, x, r));
  }

  lemma TurnedLeftKeepsCells<R, E>(l: Tree<R, E>)
    requires Height(l) > 1 && Avl(l)
    ensures Cells(TurnedLeft(l)) == Cells(l)
  {
    if SkewLeft(l) == 1 {
      CellsOf(l);
      CellsOf(l.right);
    }
  }

  // ---------- What balancing preserves ----------

  lemma Regroup<T>(a: seq<T>, x: T, b: seq<T>, y: T, c: seq<T>)
    ensures a + [x] + b + [y] + c == a + [x] + (b + [y] + c)
  {
  }

  /** Balancing at any gap keeps the in-order sequence of cells, hence the set of nodes. */
  lemma {:induction false} BalanceKeepsCells<R, E>(l: Tree<R, E>, x: Cell<R, E>, r: Tree<R, E>)
    requires Avl(l) && Avl(r)
    ensures Cells(Balance(l, x, r)) == Cells(l) + [x] + Cells(r)
    decreases Work(l, r)
  {
    if Height(l) + 1 < Height(r) {
      RaiseLeftSteps(l, x, r);
      hide *;
      var t := TurnedRight(r);
      TurnedRightKeepsCells(r);
      CellsOf(t);
      BalanceKeepsCells(l, x, t.left);
      BalanceKeepsCells(Balance(l, x, t.left), t.cell, t.right);
      Regroup(Cells(l), x, Cells(t.left), t.cell, Cells(t.right));
    } else if Height(r) + 1 < Height(l) {
      RaiseRightSteps(l, x, r);
      hide *;
      var t := TurnedLeft(l);
      TurnedLeftKeepsCells(l);
      CellsOf(t);
      BalanceKeepsCells(t.right, x, r);
      BalanceKeepsCells(t.left, t.cell, Balance(t.right, x, r));
      Regroup(Cells(t.left), t.cell, Cells(t.right), x, Cells(r));
    }
  }

  /** At a gap of two the mutual recursion ends where the textbook rotations do, for every shape. */
  lemma {:induction false} BalanceIsTextbookAtGapTwo<R, E>(l: Tree<R, E>, x: Cell<R, E>, r: Tree<R, E>)
    requires Avl(l) && Avl(r) && Gap(l, r) == 2
    ensures Balance(l, x, r) == Textbook(l, x, r)
    decreases Work(l, r)
  {
    hide Balance, Height, Avl;
    if Height(l) < Height(r) {
      RaiseLeftSteps(l, x, r);
      SkewRightShape(r);
      if SkewRight(r) == 1 {
        Join(l, x, r.left.left);
        Join(r.left.right, r.cell, r.right);
      } else if SkewRight(r) == 2 {
        Join(l, x, r.left);
        BalanceIsTextbookAtGapTwo(Mk(l, x, r.left), r.cell, r.right);
      }
    } else {
      RaiseRightSteps(l, x, r);
      SkewLeftShape(l);
      if SkewLeft(l) == 1 {
        Join(l.right.right, x, r);
        Join(l.left, l.cell, l.right.left);
      } else if SkewLeft(l) == 2 {
        Join(l.right, x, r);
        BalanceIsTextbookAtGapTwo(l.left, l.cell, Mk(l.right, x, r));
      }
    }
  }
}

/**
  When the trees that rdavl.c builds are balanced in the textbook sense: which trees are, which
  insertions lead to one, and which removals leave exact heights, each for every tree.
 */
module AvlDepth {
  import opened Basics
  import opened AvlTree
  import opened AvlMap
  import opened AvlRuns

  // ---------- Real depths from stored heights ----------

  /** A path of greatest stored height ends in a fresh node, so the tree is one level deeper than stored. */
  ghost predicate Over<R, E>(t: Tree<R, E>) {
    t.Node? && (Fresh(t)
                || (Height(t.left) >= Height(t.right) && Over(t.left))
                || (Height(t.right) >= Height(t.left) && Over(t.right)))
  }

  /** The side stored as taller is deeper than stored, the other one is not. */
  ghost predicate Tilted<R, E>(l: Tree<R, E>, r: Tree<R, E>) {
    (Height(l) > Height(r) && Over(l) && !Over(r)) || (Height(r) > Height(l) && Over(r) && !Over(l))
  }

  ghost predicate NoneTilted<R, E>(t: Tree<R, E>) {
    t.Node? ==> !Tilted(t.left, t.right) && NoneTilted(t.left) && NoneTilted(t.right)
  }

  /** The real depth of every tree. */
  lemma {:induction false} DepthIsHeightAndOver<R, E>(t: Tree<R, E>)
    requires Avl(t)
    ensures Depth(t) == Height(t) + if Over(t) then 1 else 0
  {
    if t.Node? {
      DepthIsHeightAndOver(t.left);
      DepthIsHeightAndOver(t.right);
    }
  }

  /** A tree has the textbook balance if and only if no node is tilted. */
  lemma {:induction false} TrulyBalancedIff<R, E>(t: Tree<R, E>)
    requires Avl(t)
    ensures TrulyBalanced(t) <==> NoneTilted(t)
  {
    if t.Node? {
      TrulyBalancedIff(t.left);
      TrulyBalancedIff(t.right);
      DepthIsHeightAndOver(t.left);
      DepthIsHeightAndOver(t.right);
    }
  }

  // ---------- The search path of an insertion ----------

  ghost predicate GoesLeft<R, E>(cmp: (E, E) -> int, t: Tree<R, E>, e: E)
    requires t.Node?
  {
    cmp(e, t.cell.elm) < 0
  }

  /** The subtree on the side an insertion of e takes, and the other one. */
  ghost function Toward<R, E>(cmp: (E, E) -> int, t: Tree<R, E>, e: E): Tree<R, E>
    requires t.Node?
  {
    if GoesLeft(cmp, t, e) then t.left else t.right
  }

  ghost function Away<R, E>(cmp: (E, E) -> int, t: Tree<R, E>, e: E): Tree<R, E>
    requires t.Node?
  {
    if GoesLeft(cmp, t, e) then t.right else t.left
  }

  /** The stored height will grow: the path is even down to a fresh node, which then counts. */
  ghost predicate Grows<R, E>(cmp: (E, E) -> int, t: Tree<R, E>, e: E) {
    t.Node? &&
    (Fresh(t) || (Height(Toward(cmp, t, e)) == Height(Away(cmp, t, e)) && Grows(cmp, Toward(cmp, t, e), e)))
  }

  /** The tree will be one level deeper than stored. */
  ghost predicate OverAfter<R, E>(cmp: (E, E) -> int, t: Tree<R, E>, e: E) {
    t.Node? ==>
      var b, a := Toward(cmp, t, e), Away(cmp, t, e);
      || Grows(cmp, b, e)
      || (Height(b) >= Height(a) && OverAfter(cmp, b, e))
      || (Height(a) >= Height(b) && Over(a))
  }

  /** An insertion below t's child b rotates at t. */
  ghost predicate Rotates<R, E>(cmp: (E, E) -> int, t: Tree<R, E>, e: E)
    requires t.Node?
  {
    Grows(cmp, Toward(cmp, t, e), e) && Height(Toward(cmp, t, e)) > Height(Away(cmp, t, e))
  }

  /**
    No node will be tilted. A rotation levels the nodes it moves; only a double rotation can leave a
    tilt, between the subtree next to the path and the one it is joined with.
   */
  ghost predicate BalancedAfter<R, E>(cmp: (E, E) -> int, t: Tree<R, E>, e: E) {
    t.Node? ==>
      var b, a := Toward(cmp, t, e), Away(cmp, t, e);
      NoneTilted(a) &&
      if !Grows(cmp, b, e) then
        && BalancedAfter(cmp, b, e)
        && (Height(b) > Height(a) && OverAfter(cmp, b, e) ==> Over(a))
        && (Height(a) > Height(b) && Over(a) ==> OverAfter(cmp, b, e))
      else if Height(b) <= Height(a) then
        BalancedAfter(cmp, b, e) && (Height(b) == Height(a) ==> Over(a))
      else
        var bb, ba := Toward(cmp, b, e), Away(cmp, b, e);
        assert Grows(cmp, bb, e);
        NoneTilted(ba) &&
        if GoesLeft(cmp, b, e) == GoesLeft(cmp, t, e) then BalancedAfter(cmp, bb, e)
        else
          var bbb, bba := Toward(cmp, bb, e), Away(cmp, bb, e);
          var joined := if GoesLeft(cmp, bb, e) == GoesLeft(cmp, t, e) then a else ba;
          BalancedAfter(cmp, bbb, e) && NoneTilted(bba) && (!Fresh(bb) && Over(joined) ==> Over(bba))
  }

  /** What an insertion of a new key makes of the node it passes. */
  lemma InsertStep<R, E>(cmp: (E, E) -> int, t: Tree<R, E>, c: Cell<R, E>)
    requires Avl(t) && t.Node? && Find(cmp, t, c.elm) == None
    ensures var b, a := Toward(cmp, t, c.elm), Away(cmp, t, c.elm);
      && Avl(b) && Avl(a) && Find(cmp, b, c.elm) == None
      && Insert(cmp, t, c).0 == if GoesLeft(cmp, t, c.elm) then Balance(Insert(cmp, b, c).0, t.cell, a)
                                else Balance(a, t.cell, Insert(cmp, b, c).0)
  {
    hide Balance;
  }

  lemma {:induction false} GrowingIsOver<R, E>(cmp: (E, E) -> int, t: Tree<R, E>, e: E)
    requires Grows(cmp, t, e)
    ensures OverAfter(cmp, t, e)
  {
    if !Fresh(t) {
      GrowingIsOver(cmp, Toward(cmp, t, e), e);
    }
  }

  // ---------- The shapes an insertion can give a node ----------

  /** The node whose child on the path is b and whose other child is a. */
  ghost function Link<R, E>(left: bool, b: Tree<R, E>, x: Cell<R, E>, a: Tree<R, E>): Tree<R, E> {
    if left then Mk(b, x, a) else Mk(a, x, b)
  }

  ghost function Rebalance<R, E>(left: bool, b: Tree<R, E>, x: Cell<R, E>, a: Tree<R, E>): Tree<R, E>
    requires Avl(b) && Avl(a)
  {
    if left then Balance(b, x, a) else Balance(a, x, b)
  }

  lemma LinkFacts<R, E>(left: bool, b: Tree<R, E>, x: Cell<R, E>, a: Tree<R, E>)
    ensures Height(Link(left, b, x, a)) == 1 + Max(Height(b), Height(a))
    ensures Over(Link(left, b, x, a)) <==> (Height(b) >= Height(a) && Over(b)) || (Height(a) >= Height(b) && Over(a))
    ensures NoneTilted(Link(left, b, x, a)) <==>
      && NoneTilted(b) && NoneTilted(a)
      && (Height(b) > Height(a) && Over(b) ==> Over(a)) && (Height(a) > Height(b) && Over(a) ==> Over(b))
  {
  }

  /** A child that has grown by two levels over its sibling, leaning outwards: one rotation. */
  lemma SingleRotation<R, E>(left: bool, bb: Tree<R, E>, y: Cell<R, E>, ba: Tree<R, E>, x: Cell<R, E>, a: Tree<R, E>)
    requires Avl(bb) && Avl(ba) && Avl(a) && Height(bb) == Height(ba) + 1 == Height(a) + 1
    ensures Avl(Link(left, bb, y, ba))
    ensures Rebalance(left, Link(left, bb, y, ba), x, a) == Link(left, bb, y, Link(left, ba, x, a))
  {
    Join(bb, y, ba);
    Join(ba, y, bb);
    var b := Link(left, bb, y, ba);
    if left {
      BalanceIsTextbookAtGapTwo(b, x, a);
    } else {
      BalanceIsTextbookAtGapTwo(a, x, b);
    }
    hide Balance, Avl;
  }

  /** The same leaning inwards: two rotations. The inner grandchild g has near on the side of b's other child. */
  lemma DoubleRotation<R, E>(left: bool, g: Tree<R, E>, y: Cell<R, E>, ba: Tree<R, E>, x: Cell<R, E>, a: Tree<R, E>)
    requires Avl(g) && Avl(ba) && Avl(a) && g.Node? && Height(g) == Height(ba) + 1 == Height(a) + 1
    ensures Avl(Link(!left, g, y, ba))
    ensures var near, far := if left then g.left else g.right, if left then g.right else g.left;
      Rebalance(left, Link(!left, g, y, ba), x, a) ==
      Link(left, Link(left, ba, y, near), g.cell, Link(left, far, x, a))
  {
    Join(g, y, ba);
    Join(ba, y, g);
    var b := Link(!left, g, y, ba);
    if left {
      BalanceIsTextbookAtGapTwo(b, x, a);
    } else {
      BalanceIsTextbookAtGapTwo(a, x, b);
    }
    hide Balance, Avl;
  }

  // ---------- What an insertion of a new key leaves ----------

  /** The three predictions hold of the tree after the insertion. */
  ghost predicate Predicted<R, E>(cmp: (E, E) -> int, t: Tree<R, E>, e: E, t': Tree<R, E>) {
    && Height(t') == Height(t) + (if Grows(cmp, t, e) then 1 else 0)
    && (Over(t') <==> OverAfter(cmp, t, e))
    && (NoneTilted(t') <==> BalancedAfter(cmp, t, e))
  }

  /** Below a child that grows, the insertion only replaces the child's child. */
  lemma GrownChild<R, E>(cmp: (E, E) -> int, t: Tree<R, E>, c: Cell<R, E>)
    requires Avl(t) && Height(t) > 0 && Grows(cmp, t, c.elm) && Find(cmp, t, c.elm) == None
    requires Predicted(cmp, Toward(cmp, t, c.elm), c.elm, Insert(cmp, Toward(cmp, t, c.elm), c).0)
    ensures var b, a := Toward(cmp, t, c.elm), Away(cmp, t, c.elm);
      && Avl(b) && Avl(a) && Grows(cmp, b, c.elm) && Height(b) == Height(a) && Height(t) == Height(a) + 1
      && Insert(cmp, t, c).0 == Link(GoesLeft(cmp, t, c.elm), Insert(cmp, b, c).0, t.cell, a)
  {
    InsertStep(cmp, t, c);
    Children(t);
    hide Balance, Avl, Insert, Over, NoneTilted, OverAfter, BalancedAfter;
    var b, a := Toward(cmp, t, c.elm), Away(cmp, t, c.elm);
    EvenBalance(GoesLeft(cmp, t, c.elm), Insert(cmp, b, c).0, t.cell, a);
  }

  lemma EvenBalance<R, E>(left: bool, b: Tree<R, E>, x: Cell<R, E>, a: Tree<R, E>)
    requires Avl(b) && Avl(a) && Gap(b, a) <= 1
    ensures Rebalance(left, b, x, a) == Link(left, b, x, a)
  {
    hide Avl;
  }

  lemma LeafPredicted<R, E>(cmp: (E, E) -> int, c: Cell<R, E>)
    ensures Predicted(cmp, Leaf, c.elm, Insert(cmp, Leaf, c).0)
  {
  }

  lemma LinkPredicted<R, E>(cmp: (E, E) -> int, t: Tree<R, E>, e: E, b': Tree<R, E>)
    requires Avl(t) && t.Node? && !Rotates(cmp, t, e) && Predicted(cmp, Toward(cmp, t, e), e, b')
    ensures Gap(b', Away(cmp, t, e)) <= 1
    ensures Predicted(cmp, t, e, Link(GoesLeft(cmp, t, e), b', t.cell, Away(cmp, t, e)))
  {
    var b, a := Toward(cmp, t, e), Away(cmp, t, e);
    LinkFacts(GoesLeft(cmp, t, e), b', t.cell, a);
    if Fresh(t) {
      assert b.Leaf? && a.Leaf?;
    } else {
      assert Height(t) == 1 + Max(Height(b), Height(a)) && Gap(b, a) <= 1;
    }
    if Grows(cmp, b, e) {
      GrowingIsOver(cmp, b, e);
    }
    hide Link, Avl;
  }

  lemma InsertLinks<R, E>(cmp: (E, E) -> int, t: Tree<R, E>, c: Cell<R, E>)
    requires Avl(t) && t.Node? && Find(cmp, t, c.elm) == None && !Rotates(cmp, t, c.elm)
    requires Predicted(cmp, Toward(cmp, t, c.elm), c.elm, Insert(cmp, Toward(cmp, t, c.elm), c).0)
    ensures Predicted(cmp, t, c.elm, Insert(cmp, t, c).0)
  {
    var e, b' := c.elm, Insert(cmp, Toward(cmp, t, c.elm), c).0;
    InsertStep(cmp, t, c);
    LinkPredicted(cmp, t, e, b');
    EvenBalance(GoesLeft(cmp, t, e), b', t.cell, Away(cmp, t, e));
    hide Balance, Link, Avl, Predicted, Insert;
  }

  /** A growing node before and after, also when it is the fresh one. */
  lemma GrownShape<R, E>(cmp: (E, E) -> int, t: Tree<R, E>, c: Cell<R, E>)
    requires Avl(t) && t.Node? && Grows(cmp, t, c.elm) && Find(cmp, t, c.elm) == None
    requires Predicted(cmp, Toward(cmp, t, c.elm), c.elm, Insert(cmp, Toward(cmp, t, c.elm), c).0)
    ensures var b, a := Toward(cmp, t, c.elm), Away(cmp, t, c.elm);
      && Avl(b) && Avl(a) && Height(t) == Height(a) + (if Fresh(t) then 0 else 1)
      && Height(Insert(cmp, b, c).0) == Height(t) && (Fresh(t) ==> a.Leaf?)
      && Over(Insert(cmp, b, c).0)
      && Insert(cmp, t, c).0 == Link(GoesLeft(cmp, t, c.elm), Insert(cmp, b, c).0, t.cell, a)
  {
    var e, b, a := c.elm, Toward(cmp, t, c.elm), Away(cmp, t, c.elm);
    InsertStep(cmp, t, c);
    if Fresh(t) {
      assert b.Leaf? && a.Leaf?;
      EvenBalance(GoesLeft(cmp, t, e), Insert(cmp, b, c).0, t.cell, a);
    } else {
      FreshIsLow(t);
      GrownChild(cmp, t, c);
      GrowingIsOver(cmp, b, e);
    }
    hide Balance, Link, Insert;
  }

  lemma FreshIsLow<R, E>(t: Tree<R, E>)
    requires Avl(t) && t.Node?
    ensures Height(t) == 0 <==> Fresh(t)
  {
  }

  lemma {:induction false} InsertPredicted<R, E>(cmp: (E, E) -> int, t: Tree<R, E>, c: Cell<R, E>)
    requires Avl(t) && Find(cmp, t, c.elm) == None
    ensures Predicted(cmp, t, c.elm, Insert(cmp, t, c).0)
    decreases t
  {
    if t.Leaf? {
      LeafPredicted(cmp, c);
    } else {
      var e, b, a := c.elm, Toward(cmp, t, c.elm), Away(cmp, t, c.elm);
      InsertStep(cmp, t, c);
      InsertPredicted(cmp, b, c);
      if Rotates(cmp, t, e) {
        RotatingChild(cmp, t, e);
        var bb := Toward(cmp, b, e);
        InsertStep(cmp, b, c);
        InsertPredicted(cmp, bb, c);
        if GoesLeft(cmp, b, e) == GoesLeft(cmp, t, e) {
          hide *;
          InsertRotatesOnce(cmp, t, c);
        } else {
          InsertStep(cmp, bb, c);
          InsertPredicted(cmp, Toward(cmp, bb, e), c);
          hide *;
          InsertRotatesTwice(cmp, t, c);
        }
      } else {
        hide *;
        InsertLinks(cmp, t, c);
      }
    }
  }

  lemma RotatingChild<R, E>(cmp: (E, E) -> int, t: Tree<R, E>, e: E)
    requires Avl(t) && t.Node? && Rotates(cmp, t, e)
    ensures var b, a := Toward(cmp, t, e), Away(cmp, t, e);
      && b.Node? && !Fresh(b) && !Fresh(t)
      && Avl(b) && Avl(a) && Height(b) == Height(a) + 1 && Height(t) == Height(b) + 1
      && Avl(Toward(cmp, b, e)) && Avl(Away(cmp, b, e)) && Toward(cmp, b, e).Node?
      && Grows(cmp, b, e) && Grows(cmp, Toward(cmp, b, e), e)
      && Height(Toward(cmp, b, e)) == Height(Away(cmp, b, e)) == Height(a)
  {
    var b := Toward(cmp, t, e);
    Children(t);
    Children(b);
    assert !Fresh(b) && Grows(cmp, b, e);
    hide Avl;
    assert Height(Toward(cmp, b, e)) == Height(Away(cmp, b, e)) && Grows(cmp, Toward(cmp, b, e), e);
  }

  lemma InsertRotatesOnce<R, E>(cmp: (E, E) -> int, t: Tree<R, E>, c: Cell<R, E>)
    requires Avl(t) && t.Node? && Find(cmp, t, c.elm) == None && Rotates(cmp, t, c.elm)
    requires var b := Toward(cmp, t, c.elm);
      && b.Node? && GoesLeft(cmp, b, c.elm) == GoesLeft(cmp, t, c.elm) && Avl(Toward(cmp, b, c.elm))
      && Predicted(cmp, Toward(cmp, b, c.elm), c.elm, Insert(cmp, Toward(cmp, b, c.elm), c).0)
    ensures Predicted(cmp, t, c.elm, Insert(cmp, t, c).0)
  {
    var e, b, a, left := c.elm, Toward(cmp, t, c.elm), Away(cmp, t, c.elm), GoesLeft(cmp, t, c.elm);
    RotatingChild(cmp, t, e);
    InsertStep(cmp, t, c);
    GrownShape(cmp, b, c);
    var bb', ba := Insert(cmp, Toward(cmp, b, e), c).0, Away(cmp, b, e);
    SingleRotation(left, bb', b.cell, ba, t.cell, a);
    LinkFacts(left, ba, t.cell, a);
    LinkFacts(left, bb', b.cell, Link(left, ba, t.cell, a));
    hide Balance, Link, Avl, Insert, Over, NoneTilted;
  }

  lemma InsertRotatesTwice<R, E>(cmp: (E, E) -> int, t: Tree<R, E>, c: Cell<R, E>)
    requires Avl(t) && t.Node? && Find(cmp, t, c.elm) == None && Rotates(cmp, t, c.elm)
    requires var b := Toward(cmp, t, c.elm);
      && b.Node? && GoesLeft(cmp, b, c.elm) != GoesLeft(cmp, t, c.elm)
      && Toward(cmp, b, c.elm).Node? && Avl(Toward(cmp, b, c.elm)) && Find(cmp, Toward(cmp, b, c.elm), c.elm) == None
      && Avl(Toward(cmp, Toward(cmp, b, c.elm), c.elm))
      && Predicted(cmp, Toward(cmp, b, c.elm), c.elm, Insert(cmp, Toward(cmp, b, c.elm), c).0)
      && Predicted(cmp, Toward(cmp, Toward(cmp, b, c.elm), c.elm), c.elm,
                   Insert(cmp, Toward(cmp, Toward(cmp, b, c.elm), c.elm), c).0)
    ensures Predicted(cmp, t, c.elm, Insert(cmp, t, c).0)
  {
    hide Balance, Avl, Insert, Find, Link;
    var e, b, a, left := c.elm, Toward(cmp, t, c.elm), Away(cmp, t, c.elm), GoesLeft(cmp, t, c.elm);
    RotatingChild(cmp, t, e);
    InsertStep(cmp, t, c);
    InsertStep(cmp, b, c);
    GrownShape(cmp, b, c);
    var bb, ba := Toward(cmp, b, e), Away(cmp, b, e);
    GrownShape(cmp, bb, c);
    var bb', bbb', bba := Insert(cmp, bb, c).0, Insert(cmp, Toward(cmp, bb, e), c).0, Away(cmp, bb, e);
    RotatedTwice(left, GoesLeft(cmp, bb, e), bbb', bb.cell, bba, b.cell, ba, t.cell, a);
    if GoesLeft(cmp, bb, e) == left {
      TwoLinks(left, ba, b.cell, bbb', bb.cell, bba, t.cell, a);
    } else {
      TwoLinks(left, ba, b.cell, bba, bb.cell, bbb', t.cell, a);
    }
    hide Over, NoneTilted, Rebalance;
  }

  /** The double rotation when the inner grandchild is itself given by its path side g and its other side ga. */
  lemma RotatedTwice<R, E>(left: bool, gl: bool, g: Tree<R, E>, z: Cell<R, E>, ga: Tree<R, E>,
                           y: Cell<R, E>, ba: Tree<R, E>, x: Cell<R, E>, a: Tree<R, E>)
    requires Avl(Link(gl, g, z, ga)) && Avl(ba) && Avl(a)
    requires Height(Link(gl, g, z, ga)) == Height(ba) + 1 == Height(a) + 1
    ensures Avl(Link(!left, Link(gl, g, z, ga), y, ba))
    ensures Rebalance(left, Link(!left, Link(gl, g, z, ga), y, ba), x, a) ==
            if gl == left then Link(left, Link(left, ba, y, g), z, Link(left, ga, x, a))
            else Link(left, Link(left, ba, y, ga), z, Link(left, g, x, a))
  {
    DoubleRotation(left, Link(gl, g, z, ga), y, ba, x, a);
    hide Balance, Avl, Rebalance;
  }

  /** Two linked nodes of equal height below a third: only the lower two can be tilted. */
  lemma TwoLinks<R, E>(left: bool, p: Tree<R, E>, y: Cell<R, E>, q: Tree<R, E>, z: Cell<R, E>,
                       r: Tree<R, E>, x: Cell<R, E>, s: Tree<R, E>)
    requires Max(Height(p), Height(q)) == Max(Height(r), Height(s))
    ensures var t := Link(left, Link(left, p, y, q), z, Link(left, r, x, s));
      && Height(t) == 2 + Max(Height(p), Height(q))
      && (Over(t) <==> || (Height(p) >= Height(q) && Over(p)) || (Height(q) >= Height(p) && Over(q))
                       || (Height(r) >= Height(s) && Over(r)) || (Height(s) >= Height(r) && Over(s)))
      && (NoneTilted(t) <==> && NoneTilted(p) && NoneTilted(q) && NoneTilted(r) && NoneTilted(s)
                             && !Tilted(p, q) && !Tilted(r, s))
  {
    LinkFacts(left, p, y, q);
    LinkFacts(left, r, x, s);
    LinkFacts(left, Link(left, p, y, q), z, Link(left, r, x, s));
    hide Link, Over, NoneTilted, Height;
  }

  lemma {:induction false} ReplacementKeepsShape<R, E>(cmp: (E, E) -> int, t: Tree<R, E>, c: Cell<R, E>)
    requires Avl(t) && Find(cmp, t, c.elm) != None
    ensures var t' := Insert(cmp, t, c).0;
      Height(t') == Height(t) && (Over(t') <==> Over(t)) && (NoneTilted(t') <==> NoneTilted(t))
  {
    hide Balance;
    if cmp(c.elm, t.cell.elm) < 0 {
      ReplacementKeepsShape(cmp, t.left, c);
      ReplacedChild(true, t, t.left, Insert(cmp, t.left, c).0, t.right);
    } else if cmp(c.elm, t.cell.elm) > 0 {
      ReplacementKeepsShape(cmp, t.right, c);
      ReplacedChild(false, t, t.right, Insert(cmp, t.right, c).0, t.left);
    }
  }

  lemma ReplacedChild<R, E>(left: bool, t: Tree<R, E>, b: Tree<R, E>, b': Tree<R, E>, a: Tree<R, E>)
    requires Avl(t) && t.Node? && (if left then b == t.left && a == t.right else b == t.right && a == t.left) && b.Node?
    requires Avl(b') && Height(b') == Height(b) && (Over(b') <==> Over(b)) && (NoneTilted(b') <==> NoneTilted(b))
    ensures var t' := Rebalance(left, b', t.cell, a);
      Height(t') == Height(t) && (Over(t') <==> Over(t)) && (NoneTilted(t') <==> NoneTilted(t))
  {
    EvenBalance(left, b', t.cell, a);
    LinkFacts(left, b', t.cell, a);
    LinkFacts(left, b, t.cell, a);
    hide Balance, Rebalance;
  }

  /**
    For every tree and every insertion: the textbook balance holds afterwards if and only if, for a new
    key, the path leaves no tilted node, and for a present one, it held before.
   */
  lemma InsertBalancedIff<R, E>(cmp: (E, E) -> int, t: Tree<R, E>, c: Cell<R, E>)
    requires Avl(t)
    ensures TrulyBalanced(Insert(cmp, t, c).0) <==>
            if Find(cmp, t, c.elm) == None then BalancedAfter(cmp, t, c.elm) else TrulyBalanced(t)
  {
    TrulyBalancedIff(t);
    TrulyBalancedIff(Insert(cmp, t, c).0);
    if Find(cmp, t, c.elm) == None {
      InsertPredicted(cmp, t, c);
    } else {
      ReplacementKeepsShape(cmp, t, c);
    }
    hide Insert, Find, Avl, NoneTilted, BalancedAfter, TrulyBalanced;
  }

  /** The real depth after an insertion of a new key. */
  lemma InsertDepth<R, E>(cmp: (E, E) -> int, t: Tree<R, E>, c: Cell<R, E>)
    requires Avl(t) && Find(cmp, t, c.elm) == None
    ensures Depth(Insert(cmp, t, c).0) ==
            Height(t) + (if Grows(cmp, t, c.elm) then 1 else 0) + (if OverAfter(cmp, t, c.elm) then 1 else 0)
  {
    DepthIsHeightAndOver(Insert(cmp, t, c).0);
    InsertPredicted(cmp, t, c);
    hide Insert, Find, Avl, NoneTilted, BalancedAfter, Depth;
  }

  // ---------- Removals and exact heights ----------

  /** No fresh node is left once the nodes of one spine have been balanced. */
  ghost predicate SpineSettles<R, E>(t: Tree<R, E>, dir: Dir) {
    t.Node? ==>
      if dir == Left then SpineSettles(t.left, dir) && Settled(t.right)
      else Settled(t.left) && SpineSettles(t.right, dir)
  }

  /** No fresh node is off the search path of e and, below the match, off the spine the removal joins at. */
  ghost predicate RemovalSettles<R, E>(cmp: (E, E) -> int, t: Tree<R, E>, e: E) {
    t.Node? ==>
      if cmp(e, t.cell.elm) == 0 then SpineSettles(t.left, Right) && Settled(t.right)
      else RemovalSettles(cmp, Toward(cmp, t, e), e) && Settled(Away(cmp, t, e))
  }

  lemma {:induction false} MoveSettledIff<R, E>(dst: Tree<R, E>, src: Tree<R, E>, dir: Dir)
    requires Avl(dst) && Avl(src)
    ensures Settled(Move(dst, src, dir)) <==> SpineSettles(dst, dir) && Settled(src)
  {
    if dst.Node? {
      MoveSteps(dst, src, dir);
      hide Balance, Avl, Move;
      if dir == Left {
        MoveSettledIff(dst.left, src, dir);
        SettledBalance(Move(dst.left, src, dir), dst.cell, dst.right);
      } else {
        MoveSettledIff(dst.right, src, dir);
        SettledBalance(dst.left, dst.cell, Move(dst.right, src, dir));
      }
    }
  }

  lemma {:induction false} RemoveSettledIff<R, E>(cmp: (E, E) -> int, t: Tree<R, E>, e: E)
    requires Avl(t)
    ensures Settled(Remove(cmp, t, e)) <==> RemovalSettles(cmp, t, e)
  {
    if t.Node? {
      hide Balance, Avl, Move;
      if cmp(e, t.cell.elm) == 0 {
        MoveSettledIff(t.left, t.right, Right);
      } else if cmp(e, t.cell.elm) < 0 {
        RemoveSettledIff(cmp, t.left, e);
        SettledBalance(Remove(cmp, t.left, e), t.cell, t.right);
      } else {
        RemoveSettledIff(cmp, t.right, e);
        SettledBalance(t.left, t.cell, Remove(cmp, t.right, e));
      }
    }
  }

  /**
    Stored heights are exact after a removal if and only if every fresh node was on the balanced path.
    The textbook balance then holds too.
   */
  lemma RemoveExactIff<R, E>(cmp: (E, E) -> int, t: Tree<R, E>, e: E)
    requires Avl(t)
    ensures HeightsExact(Remove(cmp, t, e)) <==> RemovalSettles(cmp, t, e)
    ensures RemovalSettles(cmp, t, e) ==> TrulyBalanced(Remove(cmp, t, e))
  {
    RemoveSettledIff(cmp, t, e);
    ExactIffSettled(Remove(cmp, t, e));
    hide Remove, Settled, Avl;
  }

  // ---------- A removal that unbalances ----------

  lemma RunStep<R, E>(cmp: (E, E) -> int, ops: seq<Op<R, E>>, k: nat)
    requires k < |ops|
    ensures Run(cmp, ops[..k + 1]) == Apply(cmp, Run(cmp, ops[..k]), ops[k])
    ensures k == 0 ==> Run(cmp, ops[..k]) == Leaf
  {
    assert ops[..k + 1][..k] == ops[..k];
  }

  function KeyOf<R>(op: Op<R, int>): int {
    if op.Put? then op.cell.elm else op.elm
  }

  /** An operation below a node that needs no rotation afterwards. */
  lemma BelowNode<R>(cmp: (int, int) -> int, t: Tree<R, int>, op: Op<R, int>)
    requires Avl(t) && t.Node?
    ensures Avl(t.left) && Avl(t.right)
    ensures cmp(KeyOf(op), t.cell.elm) < 0 && Gap(Apply(cmp, t.left, op), t.right) <= 1 ==>
      Apply(cmp, t, op) == Mk(Apply(cmp, t.left, op), t.cell, t.right)
    ensures cmp(KeyOf(op), t.cell.elm) > 0 && Gap(t.left, Apply(cmp, t.right, op)) <= 1 ==>
      Apply(cmp, t, op) == Mk(t.left, t.cell, Apply(cmp, t.right, op))
  {
  }

  /** A node below which nothing has been balanced yet. */
  function NewLeaf<R>(c: Cell<R, int>): Tree<R, int> {
    Node(Leaf, c, 0, Leaf)
  }

  lemma OneNode<R>(cmp: (int, int) -> int, c: Cell<R, int>)
    requires cmp(c.elm, c.elm) == 0
    ensures Apply(cmp, Leaf, Put(c)) == NewLeaf(c)
    ensures Apply(cmp, NewLeaf(c), Del(c.elm)) == Leaf && Apply(cmp, Mk(Leaf, c, Leaf), Del(c.elm)) == Leaf
  {
  }

  ghost function SevenOps<R>(r: R): seq<Op<R, int>> {
    [Put(Cell(r, 2)), Put(Cell(r, 1)), Put(Cell(r, 3)), Put(Cell(r, 0)), Del(0), Put(Cell(r, 4)), Del(1)]
  }

  /** 2 over 1 and 3, and 4 below 3 with height 0. */
  ghost function FourKeys<R>(r: R): Tree<R, int> {
    Mk(Mk(Leaf, Cell(r, 1), Leaf), Cell(r, 2), Mk(Leaf, Cell(r, 3), NewLeaf(Cell(r, 4))))
  }

  lemma ThreeKeysReached<R>(r: R, cmp: (int, int) -> int)
    requires forall a, b :: cmp(a, b) == a - b
    ensures Run(cmp, SevenOps(r)[..3]) == Mk(NewLeaf(Cell(r, 1)), Cell(r, 2), NewLeaf(Cell(r, 3)))
  {
    var ops, c1, c2, c3 := SevenOps(r), Cell(r, 1), Cell(r, 2), Cell(r, 3);
    OneNode(cmp, c1);
    OneNode(cmp, c2);
    OneNode(cmp, c3);
    BelowNode(cmp, NewLeaf(c2), ops[1]);
    BelowNode(cmp, Mk(NewLeaf(c1), c2, Leaf), ops[2]);
    RunStep(cmp, ops, 0);
    RunStep(cmp, ops, 1);
    RunStep(cmp, ops, 2);
    hide Apply, Run, Avl;
  }

  lemma FourthStep<R>(r: R, cmp: (int, int) -> int)
    requires forall a, b :: cmp(a, b) == a - b
    ensures var t := Mk(NewLeaf(Cell(r, 1)), Cell(r, 2), NewLeaf(Cell(r, 3)));
      Avl(t) && Apply(cmp, t, SevenOps(r)[3]) == Mk(Mk(NewLeaf(Cell(r, 0)), Cell(r, 1), Leaf), Cell(r, 2), t.right)
  {
    var t := Mk(NewLeaf(Cell(r, 1)), Cell(r, 2), NewLeaf(Cell(r, 3)));
    OneNode(cmp, Cell(r, 0));
    BelowNode(cmp, t.left, SevenOps(r)[3]);
    BelowNode(cmp, t, SevenOps(r)[3]);
    hide Apply;
  }

  lemma FifthStep<R>(r: R, cmp: (int, int) -> int)
    requires forall a, b :: cmp(a, b) == a - b
    ensures var t := Mk(Mk(NewLeaf(Cell(r, 0)), Cell(r, 1), Leaf), Cell(r, 2), NewLeaf(Cell(r, 3)));
      Avl(t) && Apply(cmp, t, SevenOps(r)[4]) == Mk(Mk(Leaf, Cell(r, 1), Leaf), Cell(r, 2), t.right)
  {
    var t := Mk(Mk(NewLeaf(Cell(r, 0)), Cell(r, 1), Leaf), Cell(r, 2), NewLeaf(Cell(r, 3)));
    OneNode(cmp, Cell(r, 0));
    assert Avl(t.left);
    BelowNode(cmp, t.left, SevenOps(r)[4]);
    BelowNode(cmp, t, SevenOps(r)[4]);
    hide Apply;
  }

  lemma SixthStep<R>(r: R, cmp: (int, int) -> int)
    requires forall a, b :: cmp(a, b) == a - b
    ensures var t := Mk(Mk(Leaf, Cell(r, 1), Leaf), Cell(r, 2), NewLeaf(Cell(r, 3)));
      Avl(t) && Apply(cmp, t, SevenOps(r)[5]) == FourKeys(r)
  {
    var t := Mk(Mk(Leaf, Cell(r, 1), Leaf), Cell(r, 2), NewLeaf(Cell(r, 3)));
    OneNode(cmp, Cell(r, 4));
    assert Avl(t.left);
    BelowNode(cmp, t.right, SevenOps(r)[5]);
    BelowNode(cmp, t, SevenOps(r)[5]);
    hide Apply;
  }

  lemma FourKeysReached<R>(r: R, cmp: (int, int) -> int)
    requires forall a, b :: cmp(a, b) == a - b
    ensures Run(cmp, SevenOps(r)[..6]) == FourKeys(r)
  {
    hide *;
    ThreeKeysReached(r, cmp);
    FourthStep(r, cmp);
    FifthStep(r, cmp);
    SixthStep(r, cmp);
    SevenLong(r);
    RunStep(cmp, SevenOps(r), 3);
    RunStep(cmp, SevenOps(r), 4);
    RunStep(cmp, SevenOps(r), 5);
    MkParts(NewLeaf(Cell(r, 1)), Cell(r, 2), NewLeaf(Cell(r, 3)));
    MkParts(Mk(NewLeaf(Cell(r, 0)), Cell(r, 1), Leaf), Cell(r, 2), NewLeaf(Cell(r, 3)));
  }

  lemma SevenLong<R>(r: R)
    ensures |SevenOps(r)| == 7
  {
  }

  lemma MkParts<R, E>(l: Tree<R, E>, x: Cell<R, E>, r: Tree<R, E>)
    ensures Mk(l, x, r).Node? && Mk(l, x, r).left == l && Mk(l, x, r).right == r
  {
  }

  /** The textbook balance can hold before a removal and not after it: no stored gap shows what is too deep. */
  lemma RemovalCanUnbalance<R>(r: R)
    ensures var cmp := (a: int, b: int) => a - b;
      && TrulyBalanced(Run(cmp, SevenOps(r)[..6])) && !TrulyBalanced(Run(cmp, SevenOps(r)))
  {
    var cmp := (a: int, b: int) => a - b;
    var ops, t := SevenOps(r), FourKeys(r);
    FourKeysReached(r, cmp);
    RunStep(cmp, ops, 6);
    assert ops[..7] == ops;
    OneNode(cmp, Cell(r, 1));
    BelowNode(cmp, t, Del(1));
    assert Depth(t.right.right) == 1 && Depth(t.right) == 2 && Depth(t.left) == 1;
    assert TrulyBalanced(t.right.right) && TrulyBalanced(t.right) && TrulyBalanced(t.left);
    assert Run(cmp, ops) == Mk(Leaf, Cell(r, 2), t.right);
    hide Apply, Run, Avl;
  }
}

/** The tree object of rdavl.h: every operation seen from outside, over the whole history of the object. */
module AvlObject {
  import opened Basics
  import opened AvlTree
  import AvlMap
  import opened AvlRuns
  import opened AvlHeap

  ghost function ElmOf<R, E>(c: Option<Cell<R, E>>): Option<E> {
    match c case None => None case Some(cell) => Some(cell.elm)
  }

  /** rd_avl_t without its lock: the root, the comparator, and the operations done so far. */
  class AvlRoot<E(!new)> {
    var root: AvlNode?<E>
    const cmp: (E, E) -> int
    ghost var tree: Model<E>
    ghost var log: seq<Op<AvlNode<E>, E>>

    ghost predicate Valid()
      reads this, Nodes(tree)
    {
      AvlMap.Lawful(cmp) && tree == Run(cmp, log) && Distinct(tree) && Shape(root, tree)
    }

    constructor (cmp: (E, E) -> int)
      requires AvlMap.Lawful(cmp)
      ensures Valid() && log == [] && this.cmp == cmp
    {
      this.cmp := cmp;
      root := null;
      tree := Leaf;
      log := [];
    }

    /** rd_avl_insert: links elm's node into the tree and returns the element it displaced. */
    method Insert(elm: E, ran: AvlNode<E>) returns (previous: Option<E>)
      requires Valid() && ran !in Nodes(tree)
      modifies this, ran, Nodes(tree)
      ensures Valid() && log == old(log) + [Put(Cell(ran, elm))]
      ensures Nodes(tree) == old(Nodes(tree) - Gone(AvlMap.Find(cmp, tree, elm))) + {ran}
      ensures previous == ElmOf(Latest(cmp, old(log), elm))
    {
      hide *;
      Opened();
      ghost var t := tree;
      ghost var c := Cell(ran, elm);
      assert allocated(Nodes(t));
      ran.left, ran.right, ran.height, ran.elm := null, null, 0, elm;
      InsertNodes(cmp, t, c);
      SettledInsert(cmp, t, c);
      FindIsLatest(cmp, log, elm);
      RunPut(cmp, log, c);
      var existing;
      root, existing := InsertNode(cmp, root, ran, t);
      CarriesElm(existing, AvlMap.Insert(cmp, t, c).1);
      tree := AvlMap.Insert(cmp, t, c).0;
      log := log + [Put(c)];
      Close();
      previous := if existing == null then None else Some(existing.elm);
    }

    /** rd_avl_remove_elm. */
    method RemoveElm(elm: E)
      requires Valid()
      modifies this, Nodes(tree)
      ensures Valid() && log == old(log) + [Del(elm)]
      ensures Nodes(tree) == old(Nodes(tree) - Gone(AvlMap.Find(cmp, tree, elm)))
      ensures Unlinked(old(AvlMap.Find(cmp, tree, elm)))
    {
      hide *;
      Opened();
      ghost var t := tree;
      assert allocated(Nodes(t)) && allocated(Gone(AvlMap.Find(cmp, t, elm)));
      RemoveNodes(cmp, t, elm);
      RunDel(cmp, log, elm);
      root := AvlHeap.RemoveElm(cmp, root, elm, t);
      tree := AvlMap.Remove(cmp, t, elm);
      log := log + [Del(elm)];
      Close();
    }

    /** rd_avl_find. */
    method Find(elm: E) returns (res: Option<E>, ghost visits: nat)
      requires Valid()
      ensures res == ElmOf(Latest(cmp, log, elm))
      ensures |Cells(tree)| + 1 >= Fib(visits + 1)
    {
      hide *;
      Opened();
      var n;
      n, visits := FindNode(cmp, root, elm, tree);
      CarriesElm(n, AvlMap.Find(cmp, tree, elm));
      FindIsLatest(cmp, log, elm);
      SearchIsLogarithmic(cmp, log, elm);
      res := if n == null then None else Some(n.elm);
    }

    lemma Opened()
      requires Valid()
      ensures AvlMap.Lawful(cmp) && tree == Run(cmp, log) && Distinct(tree) && Shape(root, tree)
    {
    }

    lemma Close()
      requires AvlMap.Lawful(cmp) && tree == Run(cmp, log) && Distinct(tree) && Shape(root, tree)
      ensures Valid()
    {
    }
  }

  lemma CarriesElm<E>(n: AvlNode?<E>, c: Option<Cell<AvlNode<E>, E>>)
    requires Carries(n, c)
    ensures ElmOf(c) == if n == null then None else Some(n.elm)
  {
  }

  lemma RunPut<R, E>(cmp: (E, E) -> int, ops: seq<Op<R, E>>, c: Cell<R, E>)
    ensures Run(cmp, ops + [Put(c)]) == AvlMap.Insert(cmp, Run(cmp, ops), c).0
  {
    assert (ops + [Put(c)])[..|ops|] == ops;
  }

  lemma RunDel<R, E>(cmp: (E, E) -> int, ops: seq<Op<R, E>>, e: E)
    ensures Run(cmp, ops + [Del(e)]) == AvlMap.Remove(cmp, Run(cmp, ops), e)
  {
    assert (ops + [Del(e)])[..|ops|] == ops;
  }
}

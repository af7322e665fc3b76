/** The recursive insert worked out on the smallest trees, over symbolic
    keys: the shapes the unit tests and the counterexamples pass through. */
module SmallTrees {
  import opened TreeModel
  import opened TreeOps

  /** Inserting a larger key next to a single node hangs it on the right. */
  lemma InsertRightOfSingle<V>(b: int, vb: V, c: int, vc: V)
    requires b < c
    ensures IsAvl(NewNode(b, vb)) && c !in Bindings(NewNode(b, vb))
    ensures InsertNode(c, vc, NewNode(b, vb)) == Node(b, vb, Leaf, NewNode(c, vc), 1, 1)
  {
    var t := NewNode(b, vb);
    assert InsertNode(c, vc, Leaf) == NewNode(c, vc);
    assert UpdateNode(t.(right := NewNode(c, vc))) == Node(b, vb, Leaf, NewNode(c, vc), 1, 1);
  }

  /** Inserting a smaller key next to a single node hangs it on the left. */
  lemma InsertLeftOfSingle<V>(b: int, vb: V, a: int, va: V)
    requires a < b
    ensures IsAvl(NewNode(b, vb)) && a !in Bindings(NewNode(b, vb))
    ensures InsertNode(a, va, NewNode(b, vb)) == Node(b, vb, NewNode(a, va), Leaf, 1, -1)
  {
    var t := NewNode(b, vb);
    assert InsertNode(a, va, Leaf) == NewNode(a, va);
    assert UpdateNode(t.(left := NewNode(a, va))) == Node(b, vb, NewNode(a, va), Leaf, 1, -1);
  }

  /** Inserting a below the left leaf of the balanced three-node tree c(b, e). */
  lemma InsertBelowBalancedPair<V>(a: int, va: V, b: int, vb: V, c: int, vc: V, e: int, ve: V)
    requires a < b < c < e
    ensures IsAvl(Node(c, vc, NewNode(b, vb), NewNode(e, ve), 1, 0)) && a !in Bindings(Node(c, vc, NewNode(b, vb), NewNode(e, ve), 1, 0))
    ensures InsertNode(a, va, Node(c, vc, NewNode(b, vb), NewNode(e, ve), 1, 0))
         == Node(c, vc, Node(b, vb, NewNode(a, va), Leaf, 1, -1), NewNode(e, ve), 2, -1)
  {
    var cl := Node(c, vc, NewNode(b, vb), NewNode(e, ve), 1, 0);
    assert Bindings(cl) == map[b := vb, e := ve][c := vc];
    InsertLeftOfSingle(b, vb, a, va);
    var nc := Node(c, vc, Node(b, vb, NewNode(a, va), Leaf, 1, -1), NewNode(e, ve), 2, -1);
    assert UpdateNode(cl.(left := Node(b, vb, NewNode(a, va), Leaf, 1, -1))) == nc;
  }
}

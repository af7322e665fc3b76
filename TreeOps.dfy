/** The recursive operations on subtrees: lookup, minimum and maximum,
    recomputed height, deep copy, and the insert and remove recursions that
    update and rebalance every node on the way back up. */
module TreeOps {
  import opened TreeModel
  import opened Balancing

  /** `search`: the subtree rooted at the node holding `k`, or None for a
      null result. On an ordered tree it finds exactly the keys present. */
  function Search<Info>(k: int, t: Tree<Info>): (r: Option<Tree<Info>>)
    ensures r.Some? ==> r.value.Node? && r.value.key == k && k in Bindings(t)
                        && (Ordered(t) ==> r.value.info == Bindings(t)[k])
    ensures Ordered(t) && k in Bindings(t) ==> r.Some?
    decreases t
  {
    if t.Leaf? then None
    else if t.key == k then Some(t)
    else if t.key < k then
      assert k in Bindings(t.right) ==> Bindings(t)[k] == Bindings(t.right)[k];
      assert Ordered(t) ==> Ordered(t.right) && k !in Bindings(t.left);
      Search(k, t.right)
    else
      assert Ordered(t) && k in Bindings(t.left) ==> Bindings(t)[k] == Bindings(t.left)[k];
      assert Ordered(t) ==> Ordered(t.left) && k !in Bindings(t.right);
      Search(k, t.left)
  }

  /** `exists`: whether `search` returns a node. */
  function Exists<Info>(k: int, t: Tree<Info>): (b: bool)
    ensures Ordered(t) ==> (b <==> k in Bindings(t))
  {
    Search(k, t).Some?
  }

  /** `get_max`: the key reached by following right children. */
  function GetMax<Info>(t: Tree<Info>): (m: int)
    requires t.Node?
    ensures m in Bindings(t)
    ensures Ordered(t) ==> forall x :: x in Bindings(t) ==> x <= m
  {
    if t.right.Leaf? then t.key else GetMax(t.right)
  }

  /** `get_min`, as its declaration says: the key reached by following left
      children. The source's get_min follows one left child and then calls
      get_max (Dictionary.h:506); see SourceDefects.GetMinAsWritten. */
  function GetMin<Info>(t: Tree<Info>): (m: int)
    requires t.Node?
    ensures m in Bindings(t)
    ensures Ordered(t) ==> forall x :: x in Bindings(t) ==> m <= x
  {
    if t.left.Leaf? then t.key else GetMin(t.left)
  }

  /** `copy`: a new node for every node, with the same key, info, cached
      height and balance factor, children copied recursively. */
  function Copy<Info>(t: Tree<Info>): (r: Tree<Info>)
    ensures r == t
  {
    match t
    case Leaf => Leaf
    case Node(k, v, l, rt, h, bf) => Node(k, v, Copy(l), Copy(rt), h, bf)
  }

  /** Map algebra for removal: dropping a root key that neither side binds. */
  lemma MapDropRoot<V>(bl: map<int, V>, br: map<int, V>, k: int, v: V)
    requires k !in bl && k !in br
    ensures (bl + br)[k := v] - {k} == bl + br
  {
  }

  /** Map algebra for replacement: moving a binding of the right side to the root. */
  lemma MapMoveUpRight<V>(bl: map<int, V>, br: map<int, V>, m: int)
    requires m in br && m !in bl
    ensures (bl + (br - {m}))[m := br[m]] == bl + br
  {
  }

  /** Map algebra for replacement: moving a binding of the left side to the root. */
  lemma MapMoveUpLeft<V>(bl: map<int, V>, br: map<int, V>, m: int)
    requires m in bl && m !in br
    ensures ((bl - {m}) + br)[m := bl[m]] == bl + br
  {
  }

  /** Map algebra for an insertion below the root, on the left. */
  lemma MapInsertLeft<V>(bl: map<int, V>, br: map<int, V>, k: int, v: V, x: int, w: V)
    requires k != x && x !in br
    ensures (bl[x := w] + br)[k := v] == ((bl + br)[k := v])[x := w]
  {
  }

  /** Map algebra for an insertion below the root, on the right. */
  lemma MapInsertRight<V>(bl: map<int, V>, br: map<int, V>, k: int, v: V, x: int, w: V)
    requires k != x
    ensures (bl + br[x := w])[k := v] == ((bl + br)[k := v])[x := w]
  {
  }

  /** Map algebra for a removal below the root, on the left. */
  lemma MapRemoveLeft<V>(bl: map<int, V>, br: map<int, V>, k: int, v: V, x: int)
    requires k != x && x !in br
    ensures ((bl - {x}) + br)[k := v] == (bl + br)[k := v] - {x}
  {
  }

  /** Map algebra for a removal below the root, on the right. */
  lemma MapRemoveRight<V>(bl: map<int, V>, br: map<int, V>, k: int, v: V, x: int)
    requires k != x && x !in bl
    ensures (bl + (br - {x}))[k := v] == (bl + br)[k := v] - {x}
  {
  }

  /** What the AVL invariant says about one node: both subtrees are AVL,
      their keys lie on the proper side of the node's key, their heights
      differ by at most one, and the node's bindings are theirs plus its own. */
  lemma AvlNode<Info>(t: Tree<Info>)
    requires IsAvl(t) && t.Node?
    ensures IsAvl(t.left) && IsAvl(t.right)
    ensures forall x :: x in Bindings(t.left) ==> x < t.key
    ensures forall x :: x in Bindings(t.right) ==> t.key < x
    ensures t.key !in Bindings(t.left) && t.key !in Bindings(t.right)
    ensures -1 <= Height(t.right) - Height(t.left) <= 1
    ensures Bindings(t) == (Bindings(t.left) + Bindings(t.right))[t.key := t.info]
    ensures Height(t) == 1 + (if Height(t.left) < Height(t.right) then Height(t.right) else Height(t.left))
  {
  }

  /** Updating and balancing a node whose subtrees are AVL, correctly ordered
      around its key and at most two apart in height gives an AVL tree with
      the node's bindings, at most one lower than the node was. */
  lemma {:induction false} RebalanceNode<Info>(n: Tree<Info>)
    requires n.Node? && IsAvl(n.left) && IsAvl(n.right)
    requires forall x :: x in Bindings(n.left) ==> x < n.key
    requires forall x :: x in Bindings(n.right) ==> n.key < x
    requires -2 <= Height(n.right) - Height(n.left) <= 2
    ensures CanBalance(UpdateNode(n))
    ensures IsAvl(Balance(UpdateNode(n))) && Bindings(Balance(UpdateNode(n))) == Bindings(n)
    ensures Height(n) - 1 <= Height(Balance(UpdateNode(n))) <= Height(n)
    ensures -1 <= Height(n.right) - Height(n.left) <= 1 ==> Height(Balance(UpdateNode(n))) == Height(n)
  {
    var u := UpdateNode(n);
    assert Exact(u) && Ordered(u);
    assert Height(u) == Height(n);
    ExactCanBalance(u);
    assert Repairable(u);
  }

  /** One level of insertion into the right subtree, on the way back up. */
  lemma InsertRightStep<Info>(k: int, v: Info, t: Tree<Info>, nr: Tree<Info>)
    requires IsAvl(t) && t.Node? && t.key < k && k !in Bindings(t)
    requires IsAvl(nr) && Bindings(nr) == Bindings(t.right)[k := v]
    requires Height(t.right) <= Height(nr) <= Height(t.right) + 1
    ensures CanBalance(UpdateNode(t.(right := nr)))
    ensures var r := Balance(UpdateNode(t.(right := nr)));
            IsAvl(r) && Bindings(r) == Bindings(t)[k := v] && Height(t) <= Height(r) <= Height(t) + 1
  {
    AvlNode(t);
    var n := t.(right := nr);
    MapInsertRight(Bindings(t.left), Bindings(t.right), t.key, t.info, k, v);
    assert Bindings(n) == (Bindings(t.left) + Bindings(nr))[t.key := t.info];
    assert forall x :: x in Bindings(nr) ==> t.key < x;
    RebalanceNode(n);
  }

  /** One level of insertion into the left subtree, on the way back up. */
  lemma InsertLeftStep<Info>(k: int, v: Info, t: Tree<Info>, nl: Tree<Info>)
    requires IsAvl(t) && t.Node? && k < t.key && k !in Bindings(t)
    requires IsAvl(nl) && Bindings(nl) == Bindings(t.left)[k := v]
    requires Height(t.left) <= Height(nl) <= Height(t.left) + 1
    ensures CanBalance(UpdateNode(t.(left := nl)))
    ensures var r := Balance(UpdateNode(t.(left := nl)));
            IsAvl(r) && Bindings(r) == Bindings(t)[k := v] && Height(t) <= Height(r) <= Height(t) + 1
  {
    AvlNode(t);
    var n := t.(left := nl);
    assert k !in Bindings(t.right);
    MapInsertLeft(Bindings(t.left), Bindings(t.right), t.key, t.info, k, v);
    assert Bindings(n) == (Bindings(nl) + Bindings(t.right))[t.key := t.info];
    assert forall x :: x in Bindings(nl) ==> x < t.key;
    RebalanceNode(n);
  }

  /** The recursive `insert`: descend by key, put a new node at the empty
      position, then update and balance every node on the way back. The
      source's per-level check that the key is absent from the whole
      dictionary can only fail before the first call, where the public insert
      has already made it; it is the precondition `k !in Bindings(t)`, which
      also rules out the equal-key case. */
  function InsertNode<Info>(k: int, v: Info, t: Tree<Info>): (r: Tree<Info>)
    requires IsAvl(t) && k !in Bindings(t)
    ensures IsAvl(r)
    ensures Bindings(r) == Bindings(t)[k := v]
    ensures Height(t) <= Height(r) <= Height(t) + 1
    decreases t
  {
    if t.Leaf? then NewNode(k, v)
    else if k > t.key then
      var nr := InsertNode(k, v, t.right);
      InsertRightStep(k, v, t, nr);
      Balance(UpdateNode(t.(right := nr)))
    else
      var nl := InsertNode(k, v, t.left);
      InsertLeftStep(k, v, t, nl);
      Balance(UpdateNode(t.(left := nl)))
  }

  /** One level of removal from the left subtree, on the way back up. */
  lemma RemoveLeftStep<Info>(k: int, t: Tree<Info>, nl: Tree<Info>)
    requires IsAvl(t) && t.Node? && k < t.key
    requires IsAvl(nl) && Bindings(nl) == Bindings(t.left) - {k}
    requires Height(t.left) - 1 <= Height(nl) <= Height(t.left)
    ensures CanBalance(UpdateNode(t.(left := nl)))
    ensures var r := Balance(UpdateNode(t.(left := nl)));
            IsAvl(r) && Bindings(r) == Bindings(t) - {k} && Height(t) - 1 <= Height(r) <= Height(t)
  {
    AvlNode(t);
    var n := t.(left := nl);
    assert k !in Bindings(t.right);
    MapRemoveLeft(Bindings(t.left), Bindings(t.right), t.key, t.info, k);
    assert Bindings(n) == (Bindings(nl) + Bindings(t.right))[t.key := t.info];
    assert forall x :: x in Bindings(nl) ==> x < t.key;
    RebalanceNode(n);
  }

  /** One level of removal from the right subtree, on the way back up. */
  lemma RemoveRightStep<Info>(k: int, t: Tree<Info>, nr: Tree<Info>)
    requires IsAvl(t) && t.Node? && t.key < k
    requires IsAvl(nr) && Bindings(nr) == Bindings(t.right) - {k}
    requires Height(t.right) - 1 <= Height(nr) <= Height(t.right)
    ensures CanBalance(UpdateNode(t.(right := nr)))
    ensures var r := Balance(UpdateNode(t.(right := nr)));
            IsAvl(r) && Bindings(r) == Bindings(t) - {k} && Height(t) - 1 <= Height(r) <= Height(t)
  {
    AvlNode(t);
    var n := t.(right := nr);
    assert k !in Bindings(t.left);
    MapRemoveRight(Bindings(t.left), Bindings(t.right), t.key, t.info, k);
    assert Bindings(n) == (Bindings(t.left) + Bindings(nr))[t.key := t.info];
    assert forall x :: x in Bindings(nr) ==> t.key < x;
    RebalanceNode(n);
  }

  /** Removing the key of a two-child node by moving the left maximum `m`
      into it and removing `m` from the left subtree. */
  lemma ReplaceByMaxStep<Info>(t: Tree<Info>, m: int, nl: Tree<Info>)
    requires IsAvl(t) && t.Node? && m in Bindings(t.left)
    requires forall x :: x in Bindings(t.left) ==> x <= m
    requires IsAvl(nl) && Bindings(nl) == Bindings(t.left) - {m}
    requires Height(t.left) - 1 <= Height(nl) <= Height(t.left)
    ensures CanBalance(UpdateNode(t.(key := m, info := Bindings(t.left)[m], left := nl)))
    ensures var r := Balance(UpdateNode(t.(key := m, info := Bindings(t.left)[m], left := nl)));
            IsAvl(r) && Bindings(r) == Bindings(t) - {t.key} && Height(t) - 1 <= Height(r) <= Height(t)
  {
    AvlNode(t);
    var bl, br := Bindings(t.left), Bindings(t.right);
    var n := t.(key := m, info := bl[m], left := nl);
    assert m < t.key;
    assert forall x :: x in br ==> m < x;
    forall x | x in Bindings(nl)
      ensures x < m
    {
      assert x in bl && x != m;
    }
    assert m !in br;
    MapDropRoot(bl, br, t.key, t.info);
    MapMoveUpLeft(bl, br, m);
    assert Bindings(n) == (Bindings(nl) + br)[m := bl[m]];
    assert Height(n) == 1 + (if Height(nl) < Height(t.right) then Height(t.right) else Height(nl));
    RebalanceNode(n);
  }

  /** Removing the key of a two-child node by moving the right minimum `m`
      into it and removing `m` from the right subtree. */
  lemma ReplaceByMinStep<Info>(t: Tree<Info>, m: int, nr: Tree<Info>)
    requires IsAvl(t) && t.Node? && m in Bindings(t.right)
    requires forall x :: x in Bindings(t.right) ==> m <= x
    requires IsAvl(nr) && Bindings(nr) == Bindings(t.right) - {m}
    requires Height(t.right) - 1 <= Height(nr) <= Height(t.right)
    ensures CanBalance(UpdateNode(t.(key := m, info := Bindings(t.right)[m], right := nr)))
    ensures var r := Balance(UpdateNode(t.(key := m, info := Bindings(t.right)[m], right := nr)));
            IsAvl(r) && Bindings(r) == Bindings(t) - {t.key} && Height(t) - 1 <= Height(r) <= Height(t)
  {
    AvlNode(t);
    var bl, br := Bindings(t.left), Bindings(t.right);
    var n := t.(key := m, info := br[m], right := nr);
    assert t.key < m;
    assert forall x :: x in bl ==> x < m;
    forall x | x in Bindings(nr)
      ensures m < x
    {
      assert x in br && x != m;
    }
    assert m !in bl;
    MapDropRoot(bl, br, t.key, t.info);
    MapMoveUpRight(bl, br, m);
    assert Bindings(n) == (bl + Bindings(nr))[m := br[m]];
    assert Height(n) == 1 + (if Height(t.left) < Height(nr) then Height(nr) else Height(t.left));
    RebalanceNode(n);
  }

  /** Removing the key of a node with at most one child: the other child
      takes its place. */
  lemma SpliceStep<Info>(t: Tree<Info>)
    requires IsAvl(t) && t.Node? && (t.left.Leaf? || t.right.Leaf?)
    ensures var r := if t.left.Leaf? then t.right else t.left;
            IsAvl(r) && Bindings(r) == Bindings(t) - {t.key} && Height(t) - 1 <= Height(r) <= Height(t)
  {
    AvlNode(t);
    MapDropRoot(Bindings(t.left), Bindings(t.right), t.key, t.info);
  }

  /** The recursive `remove`. A node with at most one child is replaced by
      that child; a node with two children takes the key and info of the
      maximum of its left subtree when the left cached height is strictly
      larger, otherwise of the minimum of its right subtree, and that key is
      removed from the subtree it came from. Every node on the way back is
      updated and balanced. */
  function RemoveNode<Info>(k: int, t: Tree<Info>): (r: Tree<Info>)
    requires IsAvl(t)
    ensures IsAvl(r)
    ensures Bindings(r) == Bindings(t) - {k}
    ensures Height(t) - 1 <= Height(r) <= Height(t)
    decreases t
  {
    if t.Leaf? then Leaf
    else
      AvlNode(t);
      if k < t.key then
        var nl := RemoveNode(k, t.left);
        RemoveLeftStep(k, t, nl);
        Balance(UpdateNode(t.(left := nl)))
      else if k > t.key then
        var nr := RemoveNode(k, t.right);
        RemoveRightStep(k, t, nr);
        Balance(UpdateNode(t.(right := nr)))
      else if t.left.Leaf? || t.right.Leaf? then
        SpliceStep(t);
        if t.left.Leaf? then t.right else t.left
      else if t.left.height > t.right.height then
        var replace := Search(GetMax(t.left), t.left).value;
        var nl := RemoveNode(replace.key, t.left);
        ReplaceByMaxStep(t, replace.key, nl);
        Balance(UpdateNode(t.(key := replace.key, info := replace.info, left := nl)))
      else
        var replace := Search(GetMin(t.right), t.right).value;
        var nr := RemoveNode(replace.key, t.right);
        ReplaceByMinStep(t, replace.key, nr);
        Balance(UpdateNode(t.(key := replace.key, info := replace.info, right := nr)))
  }

  /** Removing an absent key from an AVL tree rebuilds every node on the
      search path unchanged: the result is the tree itself. */
  lemma {:induction false} RemoveAbsentIsIdentity<Info>(k: int, t: Tree<Info>)
    requires IsAvl(t) && k !in Bindings(t)
    ensures RemoveNode(k, t) == t
  {
    if t.Node? {
      assert Exact(t.left) && Exact(t.right);
      if k < t.key {
        RemoveAbsentIsIdentity(k, t.left);
        assert t.(left := t.left) == t;
      } else if k > t.key {
        RemoveAbsentIsIdentity(k, t.right);
        assert t.(right := t.right) == t;
      }
    }
  }

  /** Every key of the in-order sequence is bound in the tree. */
  lemma {:induction false} InOrderKeysBound<Info>(t: Tree<Info>, i: int)
    requires 0 <= i < |InOrder(t)|
    ensures InOrder(t)[i].0 in Bindings(t)
  {
    if t.Node? {
      var nl := |InOrder(t.left)|;
      if i < nl {
        InOrderKeysBound(t.left, i);
      } else if i > nl {
        InOrderKeysBound(t.right, i - nl - 1);
      }
    }
  }

  /** Binary-search-tree order makes the in-order keys strictly increasing. */
  lemma {:induction false} OrderedInOrderIncreasing<Info>(t: Tree<Info>, i: int, j: int)
    requires Ordered(t) && 0 <= i < j < |InOrder(t)|
    ensures InOrder(t)[i].0 < InOrder(t)[j].0
  {
    if t.Node? {
      var s, nl := InOrder(t), |InOrder(t.left)|;
      if j < nl {
        OrderedInOrderIncreasing(t.left, i, j);
      } else if i > nl {
        OrderedInOrderIncreasing(t.right, i - nl - 1, j - nl - 1);
      } else {
        if i < nl { InOrderKeysBound(t.left, i); }
        if j > nl { InOrderKeysBound(t.right, j - nl - 1); }
      }
    }
  }
}

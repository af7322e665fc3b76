/** The balancing engine: the two primitive rotations, the four case
    wrappers and the case dispatch `balance`.

    The wrappers here are the operations the source's case labels name. Three
    of the four wrappers as written in the source do something else; those
    as-written versions are modelled in module SourceDefects. */
module Balancing {
  import opened TreeModel

  /** `lRotate`: the right child becomes the subtree root, the old root its
      left child, and the right child's old left subtree moves under the old
      root. The old root is updated before the new root. */
  function RotateLeft<Info>(t: Tree<Info>): (r: Tree<Info>)
    requires t.Node? && t.right.Node?
    ensures r.Node? && r.key == t.right.key && r.left.Node? && r.left.key == t.key
    ensures InOrder(r) == InOrder(t)
    ensures Exact(t.left) && Exact(t.right.left) && Exact(t.right.right) ==> Exact(r)
  {
    var pivot := t.right;
    var demoted := UpdateNode(t.(right := pivot.left));
    UpdateNode(pivot.(left := demoted))
  }

  /** A left rotation keeps binary-search-tree order and the bindings. */
  lemma RotateLeftKeepsOrder<Info>(t: Tree<Info>)
    requires t.Node? && t.right.Node? && Ordered(t)
    ensures Ordered(RotateLeft(t)) && Bindings(RotateLeft(t)) == Bindings(t)
  {
    var pivot, r := t.right, RotateLeft(t);
    var a, b, c := Bindings(t.left), Bindings(pivot.left), Bindings(pivot.right);
    assert Ordered(pivot);
    assert pivot.key in Bindings(t.right);
    assert forall x :: x in b ==> x in Bindings(t.right);
    assert Bindings(r.left) == (a + b)[t.key := t.info];
    assert forall x :: x in Bindings(r.left) ==> x < pivot.key;
    MapRotate(a, b, c, t.key, t.info, pivot.key, pivot.info);
  }

  /** `rRotate`: the mirror image of `lRotate`. */
  function RotateRight<Info>(t: Tree<Info>): (r: Tree<Info>)
    requires t.Node? && t.left.Node?
    ensures r.Node? && r.key == t.left.key && r.right.Node? && r.right.key == t.key
    ensures InOrder(r) == InOrder(t)
    ensures Exact(t.right) && Exact(t.left.left) && Exact(t.left.right) ==> Exact(r)
  {
    var pivot := t.left;
    var demoted := UpdateNode(t.(left := pivot.right));
    UpdateNode(pivot.(right := demoted))
  }

  /** A right rotation keeps binary-search-tree order and the bindings. */
  lemma RotateRightKeepsOrder<Info>(t: Tree<Info>)
    requires t.Node? && t.left.Node? && Ordered(t)
    ensures Ordered(RotateRight(t)) && Bindings(RotateRight(t)) == Bindings(t)
  {
    var pivot, r := t.left, RotateRight(t);
    var a, b, c := Bindings(pivot.left), Bindings(pivot.right), Bindings(t.right);
    assert Ordered(pivot);
    assert pivot.key in Bindings(t.left);
    assert forall x :: x in b ==> x in Bindings(t.left);
    assert Bindings(r.right) == (b + c)[t.key := t.info];
    assert forall x :: x in Bindings(r.right) ==> pivot.key < x;
    MapRotate(a, b, c, pivot.key, pivot.info, t.key, t.info);
  }

  /** The situation `balance` is called in: caches exact, both subtrees AVL
      balanced, and the root at most two out of balance. */
  ghost predicate Repairable<Info>(t: Tree<Info>)
  {
    t.Node? && Exact(t) && Balanced(t.left) && Balanced(t.right) && -2 <= t.bf <= 2
  }

  /** The pointers `balance` and its wrappers dereference are not null. */
  predicate CanBalance<Info>(t: Tree<Info>)
  {
    && t.Node?
    && (t.bf < -1 ==> t.left.Node? && (t.left.bf > 0 ==> t.left.right.Node?))
    && (t.bf > 1 ==> t.right.Node? && (t.right.bf < 0 ==> t.right.left.Node?))
  }

  /** Exact caches guarantee that every pointer `balance` follows is there. */
  lemma ExactCanBalance<Info>(t: Tree<Info>)
    requires t.Node? && Exact(t)
    ensures CanBalance(t)
  {
    if t.bf < -1 {
      assert Height(t.left) >= 2;
      if t.left.bf > 0 { assert Height(t.left.right) >= 1; }
    }
    if t.bf > 1 {
      assert Height(t.right) >= 2;
      if t.right.bf < 0 { assert Height(t.right.left) >= 1; }
    }
  }

  /** A right rotation repairs a left-left imbalance (left child's balance factor -1 or 0). */
  lemma LeftLeftRepairs<Info>(t: Tree<Info>)
    requires Repairable(t) && t.bf == -2 && t.left.bf <= 0
    ensures Exact(RotateRight(t)) && Balanced(RotateRight(t))
    ensures Height(t) - 1 <= Height(RotateRight(t)) <= Height(t)
  {
    var pivot, r := t.left, RotateRight(t);
    assert Exact(pivot) && Balanced(pivot);
    assert Exact(r) && Exact(r.right);
    assert Height(pivot) == Height(t.right) + 2;
    assert Height(r.right) == 1 + Height(pivot.right);
  }

  /** A left rotation repairs a right-right imbalance (right child's balance factor 0 or 1). */
  lemma RightRightRepairs<Info>(t: Tree<Info>)
    requires Repairable(t) && t.bf == 2 && t.right.bf >= 0
    ensures Exact(RotateLeft(t)) && Balanced(RotateLeft(t))
    ensures Height(t) - 1 <= Height(RotateLeft(t)) <= Height(t)
  {
    var pivot, r := t.right, RotateLeft(t);
    assert Exact(pivot) && Balanced(pivot);
    assert Exact(r) && Exact(r.left);
    assert Height(pivot) == Height(t.left) + 2;
    assert Height(r.left) == 1 + Height(pivot.left);
  }

  /** The shape both double rotations produce: a node over two nodes over
      four balanced subtrees whose heights differ by at most one, the outer
      two of equal height. */
  lemma BalancedJoin<Info>(x: Tree<Info>)
    requires x.Node? && x.left.Node? && x.right.Node? && Exact(x)
    requires Balanced(x.left.left) && Balanced(x.left.right) && Balanced(x.right.left) && Balanced(x.right.right)
    requires Height(x.left.left) == Height(x.right.right)
    requires Height(x.left.left) - 1 <= Height(x.left.right) <= Height(x.left.left)
    requires Height(x.right.right) - 1 <= Height(x.right.left) <= Height(x.right.right)
    ensures Balanced(x) && Height(x) == Height(x.left.left) + 2
  {
    assert Exact(x.left) && Exact(x.right);
    assert Height(x.left) == Height(x.left.left) + 1;
    assert Height(x.right) == Height(x.right.right) + 1;
  }

  /** The double rotation repairs a left-right imbalance (left child's balance factor 1). */
  lemma LeftRightRepairs<Info>(t: Tree<Info>)
    requires Repairable(t) && t.bf == -2 && t.left.bf > 0
    ensures t.left.right.Node?
    ensures Exact(RotateRight(t.(left := RotateLeft(t.left))))
    ensures Balanced(RotateRight(t.(left := RotateLeft(t.left))))
    ensures Height(RotateRight(t.(left := RotateLeft(t.left)))) == Height(t) - 1
  {
    var l := t.left;
    ExactNode(t);
    ExactNode(l);
    var g := l.right;
    assert g.Node?;
    ExactNode(g);
    var a, b, c, d := l.left, g.left, g.right, t.right;
    var nl := RotateLeft(l);
    var r := RotateRight(t.(left := nl));
    assert nl.left.left == a && nl.left.right == b && nl.right == c;
    assert r.left == nl.left && r.right.left == c && r.right.right == d;
    assert Height(l) == Height(d) + 2;
    assert Height(g) == Height(a) + 1;
    assert Height(a) == Height(d);
    assert Height(a) - 1 <= Height(b) <= Height(a) && Height(a) - 1 <= Height(c) <= Height(a);
    assert Exact(nl) && Exact(r);
    BalancedJoin(r);
  }

  /** The double rotation repairs a right-left imbalance (right child's balance factor -1). */
  lemma RightLeftRepairs<Info>(t: Tree<Info>)
    requires Repairable(t) && t.bf == 2 && t.right.bf < 0
    ensures t.right.left.Node?
    ensures Exact(RotateLeft(t.(right := RotateRight(t.right))))
    ensures Balanced(RotateLeft(t.(right := RotateRight(t.right))))
    ensures Height(RotateLeft(t.(right := RotateRight(t.right)))) == Height(t) - 1
  {
    var rt := t.right;
    ExactNode(t);
    ExactNode(rt);
    var g := rt.left;
    assert g.Node?;
    ExactNode(g);
    var a, b, c, d := t.left, g.left, g.right, rt.right;
    var nr := RotateRight(rt);
    var r := RotateLeft(t.(right := nr));
    assert nr.right.left == c && nr.right.right == d && nr.left == b;
    assert r.right == nr.right && r.left.left == a && r.left.right == b;
    assert Height(rt) == Height(a) + 2;
    assert Height(g) == Height(d) + 1;
    assert Height(a) == Height(d);
    assert Height(d) - 1 <= Height(b) <= Height(d) && Height(d) - 1 <= Height(c) <= Height(d);
    assert Exact(nr) && Exact(r);
    BalancedJoin(r);
  }

  /** Right-right case (`rrRotate`): a single left rotation. */
  function RightRight<Info>(t: Tree<Info>): (r: Tree<Info>)
    requires t.Node? && t.right.Node?
    ensures InOrder(r) == InOrder(t)
    ensures Ordered(t) ==> Ordered(r) && Bindings(r) == Bindings(t)
    ensures Exact(t) ==> Exact(r)
    ensures Repairable(t) && t.bf == 2 && t.right.bf >= 0 ==>
              Balanced(r) && Height(t) - 1 <= Height(r) <= Height(t)
  {
    assert Ordered(t) ==> Ordered(RotateLeft(t)) && Bindings(RotateLeft(t)) == Bindings(t) by {
      if Ordered(t) { RotateLeftKeepsOrder(t); }
    }
    assert Exact(t) ==> Exact(t.right);
    assert Repairable(t) && t.bf == 2 && t.right.bf >= 0 ==> Balanced(RotateLeft(t)) && Height(t) - 1 <= Height(RotateLeft(t)) <= Height(t) by {
      if Repairable(t) && t.bf == 2 && t.right.bf >= 0 { RightRightRepairs(t); }
    }
    RotateLeft(t)
  }

  /** Left-left case (`llRotate`): a single right rotation, as the case label
      says. The source's llRotate calls rrRotate, a left rotation
      (Dictionary.h:669); see
      SourceDefects.BalanceAsWritten. */
  function LeftLeft<Info>(t: Tree<Info>): (r: Tree<Info>)
    requires t.Node? && t.left.Node?
    ensures InOrder(r) == InOrder(t)
    ensures Ordered(t) ==> Ordered(r) && Bindings(r) == Bindings(t)
    ensures Exact(t) ==> Exact(r)
    ensures Repairable(t) && t.bf == -2 && t.left.bf <= 0 ==>
              Balanced(r) && Height(t) - 1 <= Height(r) <= Height(t)
  {
    assert Ordered(t) ==> Ordered(RotateRight(t)) && Bindings(RotateRight(t)) == Bindings(t) by {
      if Ordered(t) { RotateRightKeepsOrder(t); }
    }
    assert Exact(t) ==> Exact(t.left);
    assert Repairable(t) && t.bf == -2 && t.left.bf <= 0 ==> Balanced(RotateRight(t)) && Height(t) - 1 <= Height(RotateRight(t)) <= Height(t) by {
      if Repairable(t) && t.bf == -2 && t.left.bf <= 0 { LeftLeftRepairs(t); }
    }
    RotateRight(t)
  }

  /** Left-right case (`lrRotate`): rotate the left child left, then the root
      right. The source rotates the root itself left first
      (Dictionary.h:659); see
      SourceDefects.LeftRightAsWritten. */
  function LeftRight<Info>(t: Tree<Info>): (r: Tree<Info>)
    requires t.Node? && t.left.Node? && t.left.right.Node?
    ensures InOrder(r) == InOrder(t)
    ensures Ordered(t) ==> Ordered(r) && Bindings(r) == Bindings(t)
    ensures Exact(t) ==> Exact(r)
    ensures Repairable(t) && t.bf == -2 && t.left.bf > 0 ==>
              Balanced(r) && Height(r) == Height(t) - 1
  {
    var inner := t.(left := RotateLeft(t.left));
    assert Ordered(t) ==> Ordered(RotateRight(inner)) && Bindings(RotateRight(inner)) == Bindings(t) by {
      if Ordered(t) {
        RotateLeftKeepsOrder(t.left);
        assert Bindings(inner) == Bindings(t);
        assert forall x :: x in Bindings(inner.left) ==> x in Bindings(t.left);
        RotateRightKeepsOrder(inner);
      }
    }
    assert Exact(t) ==> Exact(t.left) && Exact(t.left.right) && Exact(RotateLeft(t.left));
    assert Repairable(t) && t.bf == -2 && t.left.bf > 0 ==> Balanced(RotateRight(inner)) && Height(RotateRight(inner)) == Height(t) - 1 by {
      if Repairable(t) && t.bf == -2 && t.left.bf > 0 { LeftRightRepairs(t); }
    }
    RotateRight(inner)
  }

  /** Right-left case (`rlRotate`): rotate the right child right, then the
      root left. The source finishes with lrRotate instead of lRotate
      (Dictionary.h:650); see
      SourceDefects.RightLeftAsWritten. */
  function RightLeft<Info>(t: Tree<Info>): (r: Tree<Info>)
    requires t.Node? && t.right.Node? && t.right.left.Node?
    ensures InOrder(r) == InOrder(t)
    ensures Ordered(t) ==> Ordered(r) && Bindings(r) == Bindings(t)
    ensures Exact(t) ==> Exact(r)
    ensures Repairable(t) && t.bf == 2 && t.right.bf < 0 ==>
              Balanced(r) && Height(r) == Height(t) - 1
  {
    var inner := t.(right := RotateRight(t.right));
    assert Ordered(t) ==> Ordered(RotateLeft(inner)) && Bindings(RotateLeft(inner)) == Bindings(t) by {
      if Ordered(t) {
        RotateRightKeepsOrder(t.right);
        assert Bindings(inner) == Bindings(t);
        assert forall x :: x in Bindings(inner.right) ==> x in Bindings(t.right);
        RotateLeftKeepsOrder(inner);
      }
    }
    assert Exact(t) ==> Exact(t.right) && Exact(t.right.left) && Exact(RotateRight(t.right));
    assert Repairable(t) && t.bf == 2 && t.right.bf < 0 ==> Balanced(RotateLeft(inner)) && Height(RotateLeft(inner)) == Height(t) - 1 by {
      if Repairable(t) && t.bf == 2 && t.right.bf < 0 { RightLeftRepairs(t); }
    }
    RotateLeft(inner)
  }

  /** `balance`: dispatch on the cached balance factor. A node within -1..1
      is returned unchanged; otherwise the case selected by the heavy child's
      balance factor restores the AVL condition, keeping the contents and
      lowering the height by at most one. */
  function Balance<Info>(t: Tree<Info>): (r: Tree<Info>)
    requires CanBalance(t)
    ensures -1 <= t.bf <= 1 ==> r == t
    ensures InOrder(r) == InOrder(t)
    ensures Ordered(t) ==> Ordered(r) && Bindings(r) == Bindings(t)
    ensures Exact(t) ==> Exact(r)
    ensures Repairable(t) ==> Balanced(r) && Height(t) - 1 <= Height(r) <= Height(t)
  {
    if t.bf < -1 then
      if t.left.bf <= 0 then LeftLeft(t) else LeftRight(t)
    else if t.bf > 1 then
      if t.right.bf >= 0 then RightRight(t) else RightLeft(t)
    else
      t
  }
}

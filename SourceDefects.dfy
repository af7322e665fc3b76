/** The balancing cases and the minimum search as the source writes them,
    next to the corrected definitions the rest of the model uses.

    - `llRotate` (Dictionary.h:667-671) calls `rrRotate`, a left rotation,
      in the left-left case, where the right child may be null.
    - `lrRotate` (Dictionary.h:657-662) rotates the root itself left instead
      of its left child, and then stores the result in the root's own left
      child.
    - `rlRotate` (Dictionary.h:647-652) finishes with `lrRotate` instead of
      `lRotate`.
    - `get_min` (Dictionary.h:502-507) takes one step left and then calls
      `get_max`.

    A null dereference is modelled as `None`. Each counterexample lemma
    takes symbolic keys, so it holds for every choice of keys in the stated
    order. */
module SourceDefects {
  import opened TreeModel
  import opened Balancing
  import opened TreeOps
  import opened SmallTrees

  /** `lRotate` on a node whose right child may be null: `None` is the null
      dereference of `newParent->left` (Dictionary.h:617). */
  function RotateLeftAsWritten<Info>(t: Tree<Info>): (r: Option<Tree<Info>>)
    requires t.Node?
    ensures r.None? <==> t.right.Leaf?
    ensures r.Some? ==> r.value.Node? && r.value.left.Node? && r.value.key == t.right.key && r.value.left.key == t.key
  {
    if t.right.Leaf? then None else Some(RotateLeft(t))
  }

  /** `llRotate` as written: `rrRotate`, which is `lRotate`. In the left-left
      case it moves the root down to the left, the side that is already too
      tall, and it fails when the right child is null. */
  function LeftLeftAsWritten<Info>(t: Tree<Info>): (r: Option<Tree<Info>>)
    requires t.Node?
    ensures r.None? <==> t.right.Leaf?
    ensures r.Some? ==> r.value.Node? && r.value.left.Node? && r.value.left.key == t.key && r.value.left.left == t.left
  {
    RotateLeftAsWritten(t)
  }

  /** `lrRotate` as written. `lRotate(destination)` turns the root D and its
      right child P around (D.right := P.left, P.left := D), then
      `destination->left` := P, and `rRotate(destination)` sets
      D.left := P.right and P.right := D. P ends up with D as both children,
      D's old left subtree is no longer reachable, and P's old subtrees
      become D's children in swapped order. `None` is the null dereference
      when the right child is null. */
  function LeftRightAsWritten<Info>(t: Tree<Info>): (r: Option<Tree<Info>>)
    requires t.Node?
    ensures r.None? <==> t.right.Leaf?
    ensures r.Some? ==> r.value.Node? && r.value.key == t.right.key && r.value.left == r.value.right
    ensures r.Some? && Ordered(t) ==> forall x :: x in Bindings(t.left) ==> x !in Bindings(r.value)
  {
    if t.right.Leaf? then None
    else
      var p := t.right;
      var d := UpdateNode(t.(left := p.right, right := p.left));
      var r := UpdateNode(p.(left := d, right := d));
      assert Ordered(t) ==> forall x :: x in Bindings(t.left) ==> x !in Bindings(r) by {
        if Ordered(t) {
          assert Bindings(d) == (Bindings(p.right) + Bindings(p.left))[t.key := t.info];
          assert Bindings(r) == (Bindings(d) + Bindings(d))[p.key := p.info];
          assert p.key in Bindings(t.right);
          forall x | x in Bindings(r)
            ensures t.key <= x
          {
            if x != p.key && x != t.key {
              assert x in Bindings(p.left) || x in Bindings(p.right);
              assert x in Bindings(t.right);
            }
          }
        }
      }
      Some(r)
  }

  /** `rlRotate` as written: a right rotation of the right child, then
      `lrRotate` on the root. The right child's right rotation leaves a
      non-null right child, so it never fails, but the result is never
      ordered: the old right child's key ends up in the left subtree of the
      old root's key, which is smaller. */
  function RightLeftAsWritten<Info>(t: Tree<Info>): (r: Option<Tree<Info>>)
    requires t.Node? && t.right.Node? && t.right.left.Node?
    ensures r.Some? && r.value.Node? && r.value.left == r.value.right
    ensures Ordered(t) ==> !Ordered(r.value)
  {
    var t' := t.(right := RotateRight(t.right));
    var r := LeftRightAsWritten(t');
    assert Ordered(t) ==> !Ordered(r.value) by {
      if Ordered(t) {
        var d := r.value.left;
        assert d.key == t.key && d.left == t'.right.right;
        assert d.left.Node? && d.left.key == t.right.key;
        assert t.right.key in Bindings(t.right);
        assert t.key < t.right.key;
        assert t.right.key in Bindings(d.left);
        assert !Ordered(d);
      }
    }
    r
  }

  /** `balance` (Dictionary.h:686-712) dispatching to the wrappers as
      written. It agrees with the corrected `Balance` on a balanced node and
      in the right-right case, and fails whenever the node is left-heavy
      with a null right child. */
  function BalanceAsWritten<Info>(t: Tree<Info>): (r: Option<Tree<Info>>)
    requires CanBalance(t)
    ensures -1 <= t.bf <= 1 ==> r == Some(t) && r == Some(Balance(t))
    ensures t.bf > 1 && t.right.bf >= 0 ==> r == Some(Balance(t))
    ensures t.bf < -1 && t.right.Leaf? ==> r.None?
    ensures t.bf > 1 && t.right.bf < 0 && Ordered(t) ==> r.Some? && !Ordered(r.value)
  {
    if t.bf < -1 then
      if t.left.bf <= 0 then LeftLeftAsWritten(t) else LeftRightAsWritten(t)
    else if t.bf > 1 then
      if t.right.bf >= 0 then Some(RightRight(t)) else RightLeftAsWritten(t)
    else
      Some(t)
  }

  /** Inserting three keys in descending order: the third insertion hands
      `balance` a left-left node with a null right child, which the source
      dereferences; the corrected balance rotates it right. */
  lemma InsertDescendingFails<V>(a: int, va: V, b: int, vb: V, c: int, vc: V)
    requires a < b < c
    ensures InsertNode(b, vb, NewNode(c, vc)) == Node(c, vc, NewNode(b, vb), Leaf, 1, -1)
    ensures BalanceAsWritten(Node(c, vc, Node(b, vb, NewNode(a, va), Leaf, 1, -1), Leaf, 2, -2)).None?
    ensures InsertNode(a, va, Node(c, vc, NewNode(b, vb), Leaf, 1, -1))
         == Balance(Node(c, vc, Node(b, vb, NewNode(a, va), Leaf, 1, -1), Leaf, 2, -2))
         == Node(b, vb, NewNode(a, va), NewNode(c, vc), 1, 0)
  {
    var t := NewNode(c, vc);
    assert InsertNode(b, vb, Leaf) == NewNode(b, vb);
    assert UpdateNode(t.(left := NewNode(b, vb))) == Node(c, vc, NewNode(b, vb), Leaf, 1, -1);
    var t2 := Node(c, vc, NewNode(b, vb), Leaf, 1, -1);
    var nl := Node(b, vb, NewNode(a, va), Leaf, 1, -1);
    assert InsertNode(a, va, Leaf) == NewNode(a, va);
    assert UpdateNode(NewNode(b, vb).(left := NewNode(a, va))) == nl;
    assert InsertNode(a, va, t2.left) == nl;
    assert UpdateNode(t2.(left := nl)) == Node(c, vc, nl, Leaf, 2, -2);
  }

  /** Inserting a into e(c(b, d), f): `balance` at e sees a left-left node
      whose right child f is not null. `llRotate` as written then does not
      fail; it rotates left, the wrong way, and leaves a root whose balance
      factor is -4. The corrected balance rotates right and gives
      c(b(a, _), e(d, f)). */
  lemma LeftLeftRotatesWrongWay<V>(a: int, b: int, c: int, d: int, e: int, f: int, v: V)
    requires a < b < c < d < e < f
    ensures IsAvl(Node(e, v, Node(c, v, NewNode(b, v), NewNode(d, v), 1, 0), NewNode(f, v), 2, -1))
    ensures var t := Node(e, v, Node(c, v, Node(b, v, NewNode(a, v), Leaf, 1, -1), NewNode(d, v), 2, -1), NewNode(f, v), 3, -2);
            && BalanceAsWritten(t) == Some(Node(f, v, Node(e, v, t.left, Leaf, 3, -3), Leaf, 4, -4))
            && !Balanced(BalanceAsWritten(t).value)
            && InsertNode(a, v, Node(e, v, Node(c, v, NewNode(b, v), NewNode(d, v), 1, 0), NewNode(f, v), 2, -1))
               == Balance(t)
               == Node(c, v, Node(b, v, NewNode(a, v), Leaf, 1, -1), Node(e, v, NewNode(d, v), NewNode(f, v), 1, 0), 2, 0)
  {
    var cl := Node(c, v, NewNode(b, v), NewNode(d, v), 1, 0);
    var t0 := Node(e, v, cl, NewNode(f, v), 2, -1);
    InsertBelowBalancedPair(a, v, b, v, c, v, d, v);
    assert Bindings(t0) == (Bindings(cl) + map[f := v])[e := v];
    var nc := Node(c, v, Node(b, v, NewNode(a, v), Leaf, 1, -1), NewNode(d, v), 2, -1);
    var t := Node(e, v, nc, NewNode(f, v), 3, -2);
    assert UpdateNode(t0.(left := nc)) == t;
    assert RotateLeft(t) == Node(f, v, Node(e, v, nc, Leaf, 3, -3), Leaf, 4, -4);
  }

  /** Inserting c, a, b: the third insertion hands `balance` a left-right
      node with a null right child, which the source's `lrRotate`
      dereferences; the corrected balance makes b the root. */
  lemma InsertZigZagLeftFails<V>(a: int, va: V, b: int, vb: V, c: int, vc: V)
    requires a < b < c
    ensures InsertNode(a, va, NewNode(c, vc)) == Node(c, vc, NewNode(a, va), Leaf, 1, -1)
    ensures BalanceAsWritten(Node(c, vc, Node(a, va, Leaf, NewNode(b, vb), 1, 1), Leaf, 2, -2)).None?
    ensures InsertNode(b, vb, Node(c, vc, NewNode(a, va), Leaf, 1, -1))
         == Balance(Node(c, vc, Node(a, va, Leaf, NewNode(b, vb), 1, 1), Leaf, 2, -2))
         == Node(b, vb, NewNode(a, va), NewNode(c, vc), 1, 0)
  {
    var t := NewNode(c, vc);
    assert InsertNode(a, va, Leaf) == NewNode(a, va);
    assert UpdateNode(t.(left := NewNode(a, va))) == Node(c, vc, NewNode(a, va), Leaf, 1, -1);
    var t2 := Node(c, vc, NewNode(a, va), Leaf, 1, -1);
    var nl := Node(a, va, Leaf, NewNode(b, vb), 1, 1);
    assert InsertNode(b, vb, Leaf) == NewNode(b, vb);
    assert UpdateNode(NewNode(a, va).(right := NewNode(b, vb))) == nl;
    assert InsertNode(b, vb, t2.left) == nl;
    var n := Node(c, vc, nl, Leaf, 2, -2);
    assert UpdateNode(t2.(left := nl)) == n;
    assert RotateLeft(nl) == Node(b, vb, NewNode(a, va), Leaf, 1, -1);
  }

  /** Inserting a, c, b: the third insertion hands `balance` a right-left
      node; the source's `rlRotate` returns a tree that is not ordered (it
      holds a twice, once below b on the left, with c below it); the
      corrected balance makes b the root. */
  lemma InsertZigZagRightMisorders<V>(a: int, va: V, b: int, vb: V, c: int, vc: V)
    requires a < b < c
    ensures InsertNode(c, vc, NewNode(a, va)) == Node(a, va, Leaf, NewNode(c, vc), 1, 1)
    ensures Ordered(Node(a, va, Leaf, Node(c, vc, NewNode(b, vb), Leaf, 1, -1), 2, 2))
    ensures !Ordered(BalanceAsWritten(Node(a, va, Leaf, Node(c, vc, NewNode(b, vb), Leaf, 1, -1), 2, 2)).value)
    ensures InsertNode(b, vb, Node(a, va, Leaf, NewNode(c, vc), 1, 1))
         == Balance(Node(a, va, Leaf, Node(c, vc, NewNode(b, vb), Leaf, 1, -1), 2, 2))
         == Node(b, vb, NewNode(a, va), NewNode(c, vc), 1, 0)
  {
    var t := NewNode(a, va);
    assert InsertNode(c, vc, Leaf) == NewNode(c, vc);
    assert UpdateNode(t.(right := NewNode(c, vc))) == Node(a, va, Leaf, NewNode(c, vc), 1, 1);
    var t2 := Node(a, va, Leaf, NewNode(c, vc), 1, 1);
    var nr := Node(c, vc, NewNode(b, vb), Leaf, 1, -1);
    assert InsertNode(b, vb, Leaf) == NewNode(b, vb);
    assert UpdateNode(NewNode(c, vc).(left := NewNode(b, vb))) == nr;
    assert InsertNode(b, vb, t2.right) == nr;
    var n := Node(a, va, Leaf, nr, 2, 2);
    assert UpdateNode(t2.(right := nr)) == n;
    assert RotateRight(nr) == Node(b, vb, Leaf, NewNode(c, vc), 1, 1);
  }

  /** `get_min` as written: the node's own key when there is no left child,
      otherwise the maximum of the left subtree. On an ordered tree that is
      the minimum exactly when the left subtree holds no key other than the
      result. */
  function GetMinAsWritten<Info>(t: Tree<Info>): (m: int)
    requires t.Node?
    ensures m in Bindings(t)
    ensures Ordered(t) && m == GetMin(t) ==> forall x :: x in Bindings(t.left) ==> x == m
    ensures Ordered(t) && (forall x :: x in Bindings(t.left) ==> x == m) ==> m == GetMin(t)
  {
    if t.left.Leaf? then t.key
    else
      var mx := GetMax(t.left);
      LeftMaxIsMin(t);
      mx
  }

  /** On an ordered tree with a left child, the maximum of the left subtree
      is the minimum of the tree exactly when it is the left subtree's only key. */
  lemma LeftMaxIsMin<Info>(t: Tree<Info>)
    requires t.Node? && t.left.Node?
    ensures Ordered(t) && GetMax(t.left) == GetMin(t) ==> forall x :: x in Bindings(t.left) ==> x == GetMax(t.left)
    ensures Ordered(t) && (forall x :: x in Bindings(t.left) ==> x == GetMax(t.left)) ==> GetMax(t.left) == GetMin(t)
  {
    if Ordered(t) {
      var mx, mn := GetMax(t.left), GetMin(t.left);
      assert GetMin(t) == mn && Ordered(t.left);
      if mx == mn {
        forall x | x in Bindings(t.left)
          ensures x == mx
        {
          assert mn <= x <= mx;
        }
      }
      assert mn in Bindings(t.left);
    }
  }

  /** The step of `remove` at a node with two children when the right
      subtree is not lower (Dictionary.h:470-482), with `get_min` as written:
      the node takes the key m and the info found by `get_min`, m is removed
      from the right subtree, and the node is updated and balanced. In the
      in-order sequence m takes the removed key's place. */
  function ReplaceByMinAsWritten<Info>(t: Tree<Info>): (r: Tree<Info>)
    requires IsAvl(t) && t.Node? && t.left.Node? && t.right.Node?
    ensures var m := GetMinAsWritten(t.right);
            InOrder(r) == InOrder(t.left) + [(m, Bindings(t.right)[m])] + InOrder(RemoveNode(m, t.right))
  {
    assert Ordered(t.right) && Exact(t.left);
    var replace := Search(GetMinAsWritten(t.right), t.right).value;
    var nr := RemoveNode(replace.key, t.right);
    var u := UpdateNode(t.(key := replace.key, info := replace.info, right := nr));
    ExactCanBalance(u);
    Balance(u)
  }

  /** A key bound in a tree appears in its in-order sequence. */
  lemma {:induction false} BoundKeyIndex<Info>(t: Tree<Info>, k: int) returns (i: int)
    requires k in Bindings(t)
    ensures 0 <= i < |InOrder(t)| && InOrder(t)[i].0 == k
  {
    var nl := |InOrder(t.left)|;
    if k == t.key {
      i := nl;
    } else if k in Bindings(t.right) {
      var j := BoundKeyIndex(t.right, k);
      i := nl + 1 + j;
    } else {
      i := BoundKeyIndex(t.left, k);
    }
  }

  /** A tree whose in-order sequence puts a key m before a smaller key of
      the right part is not ordered. */
  lemma {:induction false} InOrderMisplaced<Info>(r: Tree<Info>, l: Tree<Info>, m: int, v: Info, nr: Tree<Info>, k: int)
    requires InOrder(r) == InOrder(l) + [(m, v)] + InOrder(nr)
    requires k in Bindings(nr) && k < m
    ensures !Ordered(r)
  {
    var j := BoundKeyIndex(nr, k);
    var p := |InOrder(l)|;
    assert InOrder(r)[p].0 == m;
    assert InOrder(r)[p + 1 + j].0 == k;
    if Ordered(r) {
      OrderedInOrderIncreasing(r, p, p + 1 + j);
    }
  }

  /** The as-written removal step leaves a search tree only when `get_min`
      as written found the true minimum of the right subtree: otherwise the
      minimum stays in the right subtree below a larger key. */
  lemma ReplaceByMinAsWrittenOrdered<Info>(t: Tree<Info>)
    requires IsAvl(t) && t.Node? && t.left.Node? && t.right.Node?
    ensures Ordered(ReplaceByMinAsWritten(t)) ==> GetMinAsWritten(t.right) == GetMin(t.right)
  {
    var m, mn := GetMinAsWritten(t.right), GetMin(t.right);
    assert Ordered(t.right);
    if m != mn {
      var nr := RemoveNode(m, t.right);
      assert mn in Bindings(nr) && mn < m;
      InOrderMisplaced(ReplaceByMinAsWritten(t), t.left, m, Bindings(t.right)[m], nr, mn);
    }
  }

  /** The tree e(b(a, c), h(f(_, g), i)), every node holding v. */
  function MisplaceExample<V>(a: int, b: int, c: int, e: int, f: int, g: int, h: int, i: int, v: V): (t: Tree<V>)
    ensures t.Node? && t.key == e && t.right.Node? && t.right.left.Node?
  {
    Node(e, v, Node(b, v, NewNode(a, v), NewNode(c, v), 1, 0),
         Node(h, v, Node(f, v, Leaf, NewNode(g, v), 1, 1), NewNode(i, v), 2, -1), 3, 1)
  }

  /** The example tree is a valid AVL tree holding the eight keys. */
  lemma MisplaceExampleIsAvl<V>(a: int, b: int, c: int, e: int, f: int, g: int, h: int, i: int, v: V)
    requires a < b < c < e < f < g < h < i
    ensures var t := MisplaceExample(a, b, c, e, f, g, h, i, v);
            && IsAvl(t) && f in Bindings(t.right) && Bindings(t.left) == map[a := v, c := v][b := v]
            && !(t.left.height > t.right.height)
  {
    var t := MisplaceExample(a, b, c, e, f, g, h, i, v);
    var hr := t.right;
    var fr := hr.left;
    assert Exact(fr) && Exact(hr) && Exact(t.left);
    assert Bindings(t.left) == map[a := v, c := v][b := v];
    assert Bindings(fr) == map[g := v][f := v];
    assert Bindings(hr) == (Bindings(fr) + map[i := v])[h := v];
    assert Ordered(t.left) && Ordered(hr);
    assert Balanced(t.left) && Balanced(fr) && Balanced(hr);
  }

  /** The as-written minimum branch on the example tree moves g to the root
      and leaves f in g's right subtree. */
  lemma MisplaceExampleAsWritten<V>(a: int, b: int, c: int, e: int, f: int, g: int, h: int, i: int, v: V)
    requires a < b < c < e < f < g < h < i
    requires IsAvl(MisplaceExample(a, b, c, e, f, g, h, i, v))
    ensures var t := MisplaceExample(a, b, c, e, f, g, h, i, v);
            && GetMinAsWritten(t.right) == g && GetMin(t.right) == f
            && ReplaceByMinAsWritten(t) == Node(g, v, t.left, Node(h, v, NewNode(f, v), NewNode(i, v), 1, 0), 2, 0)
  {
    var t := MisplaceExample(a, b, c, e, f, g, h, i, v);
    var hr := t.right;
    var fr := hr.left;
    assert GetMax(fr) == g;
    assert Search(g, fr) == Some(NewNode(g, v));
    assert Search(g, hr) == Some(NewNode(g, v));
    assert RemoveNode(g, NewNode(g, v)) == Leaf;
    assert UpdateNode(fr.(right := Leaf)) == NewNode(f, v);
    assert RemoveNode(g, fr) == NewNode(f, v);
    assert UpdateNode(hr.(left := NewNode(f, v))) == Node(h, v, NewNode(f, v), NewNode(i, v), 1, 0);
    var nr := Node(h, v, NewNode(f, v), NewNode(i, v), 1, 0);
    assert RemoveNode(g, hr) == nr;
    assert UpdateNode(t.(key := g, info := v, right := nr)) == Node(g, v, t.left, nr, 2, 0);
  }

  /** Removing the root key e of the tree e(b(a, c), h(f(_, g), i)): the
      right subtree is taller, so the minimum branch runs; `get_min` as
      written returns g, and f stays in the right subtree of g, where a
      search for f never looks. The corrected removal keeps f reachable. */
  lemma RemoveMisplacesKey<V>(a: int, b: int, c: int, e: int, f: int, g: int, h: int, i: int, v: V)
    requires a < b < c < e < f < g < h < i
    ensures IsAvl(MisplaceExample(a, b, c, e, f, g, h, i, v))
    ensures var t := MisplaceExample(a, b, c, e, f, g, h, i, v);
            && !(t.left.height > t.right.height)
            && GetMinAsWritten(t.right) == g && GetMin(t.right) == f
            && f in Bindings(ReplaceByMinAsWritten(t)) && !Exists(f, ReplaceByMinAsWritten(t))
            && Exists(f, RemoveNode(e, t))
  {
    var t := MisplaceExample(a, b, c, e, f, g, h, i, v);
    MisplaceExampleIsAvl(a, b, c, e, f, g, h, i, v);
    MisplaceExampleAsWritten(a, b, c, e, f, g, h, i, v);
    var u := ReplaceByMinAsWritten(t);
    assert !Exists(f, t.left);
    assert u.left == t.left && u.key == g && f < g;
    assert Exists(f, RemoveNode(e, t)) by {
      assert f in Bindings(RemoveNode(e, t));
    }
  }
}

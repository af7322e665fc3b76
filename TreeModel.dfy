/** The node record of the AVL dictionary and the invariants its trees keep.

    A `Tree` value is what is reachable from a `Node*`: `Leaf` is the null
    pointer, `Node` a heap node with its key, its info, both children and the
    two cached fields `height` (a single node has height 0) and `bf`
    (`balance_factor`). Every mutating recursion returns the new subtree root,
    and with the rotations the case labels name no node is shared, so a
    value stands for the pointer faithfully. The source's `lrRotate` and
    `rlRotate` as written make one node both children of the new root; a
    value shows that only as two equal subtrees (see module SourceDefects).
    Keys are integers, the key type the dictionary is instantiated with in its
    tests; only `<`, `>` and `==` on keys are used. */
module TreeModel {

  datatype Option<T> = None | Some(value: T)

  datatype Tree<Info> =
    | Leaf
    | Node(key: int, info: Info, left: Tree<Info>, right: Tree<Info>, height: int, bf: int)

  /** The cached height of a child as `update_node` reads it: an absent child counts -1. */
  function CachedHeight<Info>(t: Tree<Info>): int
  {
    if t.Leaf? then -1 else t.height
  }

  /** The recomputed height `height(Node*)`: 0 for the empty tree, otherwise
      one more than the taller child, so a single node has height 1. */
  function Height<Info>(t: Tree<Info>): (h: nat)
    ensures h == 0 <==> t.Leaf?
  {
    match t
    case Leaf => 0
    case Node(_, _, l, r, _, _) =>
      var hr := Height(r);
      var hl := Height(l);
      1 + (if hr > hl then hr else hl)
  }

  /** Number of nodes. */
  function Size<Info>(t: Tree<Info>): nat
  {
    match t
    case Leaf => 0
    case Node(_, _, l, r, _, _) => Size(l) + 1 + Size(r)
  }

  /** The in-order sequence of (key, info) pairs. */
  ghost function InOrder<Info>(t: Tree<Info>): seq<(int, Info)>
  {
    match t
    case Leaf => []
    case Node(k, v, l, r, _, _) => InOrder(l) + [(k, v)] + InOrder(r)
  }

  /** The key-to-info bindings the tree holds. */
  ghost function Bindings<Info>(t: Tree<Info>): map<int, Info>
  {
    match t
    case Leaf => map[]
    case Node(k, v, l, r, _, _) => (Bindings(l) + Bindings(r))[k := v]
  }

  /** Binary-search-tree order: every key in a left subtree is smaller and
      every key in a right subtree is larger than the node's key. */
  ghost predicate Ordered<Info>(t: Tree<Info>)
  {
    match t
    case Leaf => true
    case Node(k, _, l, r, _, _) =>
      && Ordered(l) && Ordered(r)
      && (forall x :: x in Bindings(l) ==> x < k)
      && (forall x :: x in Bindings(r) ==> k < x)
  }

  /** The cached fields are exact at every node: `height` is one less than the
      recomputed height and `bf` is the right height minus the left height. */
  ghost predicate Exact<Info>(t: Tree<Info>)
  {
    match t
    case Leaf => true
    case Node(_, _, l, r, h, bf) =>
      && Exact(l) && Exact(r)
      && h == Height(t) - 1
      && bf == Height(r) - Height(l)
  }

  /** The AVL condition on the cached balance factor of every node. */
  ghost predicate Balanced<Info>(t: Tree<Info>)
  {
    match t
    case Leaf => true
    case Node(_, _, l, r, _, bf) => Balanced(l) && Balanced(r) && -1 <= bf <= 1
  }

  /** The invariant every completed public operation leaves behind. */
  ghost predicate IsAvl<Info>(t: Tree<Info>)
  {
    Ordered(t) && Exact(t) && Balanced(t)
  }

  /** The constructor `Node(nK, nI)`: a fresh node without children, height 0 and balance factor 0. */
  function NewNode<Info>(k: int, v: Info): (r: Tree<Info>)
    ensures IsAvl(r) && Height(r) == 1
    ensures Bindings(r) == map[k := v] && InOrder(r) == [(k, v)]
  {
    Node(k, v, Leaf, Leaf, 0, 0)
  }

  /** `update_node`: recompute the cached height and balance factor of one
      node from its children's cached heights, nothing else changing. When the
      children's caches are exact, the node's become exact. */
  function UpdateNode<Info>(t: Tree<Info>): (r: Tree<Info>)
    requires t.Node?
    ensures r.Node? && r.key == t.key && r.info == t.info && r.left == t.left && r.right == t.right
    ensures Exact(t.left) && Exact(t.right) ==> Exact(r)
    ensures Exact(t) ==> r == t
  {
    var lh := CachedHeight(t.left);
    var rh := CachedHeight(t.right);
    t.(height := if lh > rh then 1 + lh else 1 + rh, bf := rh - lh)
  }

  /** One level of `Exact` and `Balanced`, unfolded. */
  lemma ExactNode<Info>(t: Tree<Info>)
    requires t.Node? && Exact(t)
    ensures Exact(t.left) && Exact(t.right)
    ensures t.bf == Height(t.right) - Height(t.left)
    ensures Height(t) == 1 + (if Height(t.left) < Height(t.right) then Height(t.right) else Height(t.left))
    ensures Balanced(t) ==> Balanced(t.left) && Balanced(t.right) && -1 <= t.bf <= 1
  {
  }

  /** On an exact tree the recomputed height is the cached root height plus one. */
  lemma ExactRootHeight<Info>(t: Tree<Info>)
    requires Exact(t)
    ensures Height(t) == CachedHeight(t) + 1
  {
  }

  /** Rearranging the bindings of three key-disjoint subtrees around two keys
      (the map view of a rotation). */
  lemma MapRotate<V>(a: map<int, V>, b: map<int, V>, c: map<int, V>, k: int, v: V, pk: int, pv: V)
    requires k < pk
    requires forall x :: x in a ==> x < k
    requires forall x :: x in b ==> k < x < pk
    requires forall x :: x in c ==> pk < x
    ensures (a + (b + c)[pk := pv])[k := v] == ((a + b)[k := v] + c)[pk := pv]
  {
  }

  /** The AVL height bound: an AVL tree of height h holds at least
      MinNodes(h) nodes, the Fibonacci-like minimum. */
  function MinNodes(h: nat): nat
  {
    if h == 0 then 0 else if h == 1 then 1 else 1 + MinNodes(h - 1) + MinNodes(h - 2)
  }

  function Pow2(n: nat): nat
  {
    if n == 0 then 1 else 2 * Pow2(n - 1)
  }

  lemma {:induction false} AvlMinSize<Info>(t: Tree<Info>)
    requires Exact(t) && Balanced(t)
    ensures Size(t) >= MinNodes(Height(t))
  {
    match t
    case Leaf =>
    case Node(_, _, l, r, _, _) =>
      AvlMinSize(l);
      AvlMinSize(r);
      var hl, hr := Height(l), Height(r);
      assert hl <= hr + 1 && hr <= hl + 1;
      assert Size(t) == Size(l) + 1 + Size(r);
      if hl <= hr {
        assert Height(t) == hr + 1;
        MinNodesStep(hl, hr);
      } else {
        assert Height(t) == hl + 1;
        MinNodesStep(hr, hl);
      }
  }

  /** Two subtrees at most one apart in height, with at least the minimum
      number of nodes each, make at least the minimum for one level more. */
  lemma MinNodesStep(lo: nat, h: nat)
    requires lo <= h <= lo + 1
    ensures MinNodes(lo) + 1 + MinNodes(h) >= MinNodes(h + 1)
  {
    if h >= 1 {
      MinNodesMonotone(h - 1, lo);
    }
  }

  lemma {:induction false} MinNodesMonotone(a: nat, b: nat)
    requires a <= b
    ensures MinNodes(a) <= MinNodes(b)
  {
    if a < b {
      MinNodesMonotone(a, b - 1);
      assert MinNodes(b - 1) <= MinNodes(b);
    }
  }

  /** MinNodes grows at least like 2^(h/2), so h <= 2 log2(n + 1). */
  lemma {:induction false} MinNodesExponential(h: nat)
    ensures MinNodes(h) + 1 >= Pow2(h / 2)
  {
    if h >= 2 {
      MinNodesExponential(h - 2);
      MinNodesMonotone(h - 2, h - 1);
      assert (h - 2) / 2 == h / 2 - 1;
    }
  }

  /** The logarithmic height bound of an AVL tree: 2^(Height/2) <= Size + 1. */
  lemma AvlHeightLogarithmic<Info>(t: Tree<Info>)
    requires Exact(t) && Balanced(t)
    ensures Pow2(Height(t) / 2) <= Size(t) + 1
  {
    AvlMinSize(t);
    MinNodesExponential(Height(t));
  }
}

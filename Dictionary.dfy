/** The `Dictionary<Key, Info>` object: a single owning reference `root` to
    the tree, which every public operation reads or reassigns. */
module Dictionaries {
  import opened TreeModel
  import opened Balancing
  import opened TreeOps

  class Dictionary<Info> {
    var root: Tree<Info>

    /** The invariant after every completed public operation. */
    ghost predicate Valid()
      reads this
    {
      IsAvl(root)
    }

    /** The key-to-info bindings the dictionary holds. */
    ghost function Contents(): map<int, Info>
      reads this
    {
      Bindings(root)
    }

    /** The default constructor: an empty dictionary. */
    constructor ()
      ensures Valid() && root == Leaf && Contents() == map[]
    {
      root := Leaf;
    }

    /** `insert(newKey, newInfo)`: a no-op when the key is present (the old
        info is kept), otherwise the recursive insert. */
    method Insert(k: int, v: Info)
      requires Valid()
      modifies this
      ensures Valid()
      ensures root == if k in old(Contents()) then old(root) else InsertNode(k, v, old(root))
      ensures Contents() == if k in old(Contents()) then old(Contents()) else old(Contents())[k := v]
    {
      if TreeOps.Exists(k, root) {
        return;
      }
      root := InsertNode(k, v, root);
    }

    /** `remove(key)`: a no-op when the key is absent, otherwise the
        recursive remove. */
    method Remove(k: int)
      requires Valid()
      modifies this
      ensures Valid()
      ensures root == if k in old(Contents()) then RemoveNode(k, old(root)) else old(root)
      ensures Contents() == old(Contents()) - {k}
    {
      if !TreeOps.Exists(k, root) {
        return;
      }
      root := RemoveNode(k, root);
    }

    /** `exists(aKey)`. */
    method Exists(k: int) returns (b: bool)
      requires Valid()
      ensures b <==> k in Contents()
    {
      b := TreeOps.Exists(k, root);
    }

    /** `height()`: the recomputed height of the whole tree, 0 when empty,
        one more than the cached root height otherwise. */
    method Height() returns (h: nat)
      requires Valid()
      ensures h == TreeModel.Height(root) == CachedHeight(root) + 1
      ensures h == 0 <==> Contents() == map[]
      ensures Pow2(h / 2) <= Size(root) + 1
    {
      h := TreeModel.Height(root);
      assert root.Node? ==> root.key in Contents();
      AvlHeightLogarithmic(root);
    }

    /** `clear()`: the tree becomes empty. */
    method Clear()
      modifies this
      ensures Valid() && root == Leaf && Contents() == map[]
    {
      root := Leaf;
    }

    /** `operator=`: clear, then copy the source's tree. The source reads
        `dict->root` at Dictionary.h:723, on a reference; `dict.root` is
        meant. Assigning a dictionary to itself reads the root after the
        clear and so leaves it empty. */
    method Assign(dict: Dictionary<Info>)
      requires Valid() && dict.Valid()
      modifies this
      ensures Valid()
      ensures root == if dict == this then Leaf else old(dict.root)
      ensures dict != this ==> Contents() == old(dict.Contents()) && unchanged(dict)
    {
      Clear();
      root := Copy(dict.root);
    }
  }
}

# AVL dictionary

A Dafny model of `Dictionary<Key, Info>` from Dictionary.h. It is an
AVL-balanced binary search tree mapping keys to infos. Every node caches its
`height` (0 for a node without children) and its `balance_factor` (right
height minus left height).

- A public `insert` adds a binding only when the key is absent.
- A public `remove` deletes a binding only when the key is present.
- Both call a recursive helper. The helper runs `update_node` and `balance`
  at every level on the way back up.
- `balance` chooses one of four rotation cases from the cached balance
  factors.

Every recursive operation returns the new subtree root. With the rotations
the case labels name, no node is shared, so the tree is modelled as a value:
`Tree = Leaf | Node(key, info, left, right, height, bf)`. `Leaf` is the null
pointer. The `Dictionary` object is a class whose one field `root` the
public operations reassign. The source's `lrRotate` and `rlRotate` as written
make one node both children of the new root. A value can show that only as
two equal subtrees (see `SourceDefects`).

The modules are:

- `TreeModel`: the node record, `update_node` and the invariants. The
  invariants are binary-search order, exact caches and balance factors
  within -1..1, joined in `IsAvl`. A separate lemma proves the logarithmic
  height bound for balanced trees with exact caches.
- `Balancing`: `lRotate`, `rRotate`, the four case wrappers and `balance`.
  These follow the rotation each case is labelled with in the source.
- `TreeOps`: `search`, `exists`, `get_max`, `get_min`, `copy`, and the
  recursive `insert` and `remove`. Both `insert` and `remove` are proved to
  keep the AVL invariant. Their bindings are the old ones with the key added
  or removed, and their height changes by at most one.
- `SmallTrees`: the recursive insert worked out on one-node and three-node
  trees, shared by the unit tests and the counterexamples.
- `Dictionaries`: the public operations on the `Dictionary` class.
- `Scenarios`: the unit tests of dict_test.cpp as verified client code, over
  symbolic keys in the test's relative order. Each test is also verified
  with the test's own keys, by a method that calls the scenario with them.
- `SourceDefects`: the rotation cases and `get_min` as written, with
  counterexamples (see "## Findings").

Keys are `int`, the key type the tests instantiate. Only `<`, `>` and `==`
on keys are used.

## Model

| member | source | states |
|---|---|---|
| TreeModel.NewNode | Dictionary.h:45-50 | a fresh node has no children, cached height 0 and balance factor 0; it is an AVL tree of height 1 holding exactly its one binding |
| TreeModel.Height | Dictionary.h:511-522 | the recomputed height is 0 exactly for the empty tree |
| TreeModel.UpdateNode | Dictionary.h:732-739 | only the two caches change; they become exact when the children's caches are exact, and an already exact node is left as it is |
| TreeModel.ExactRootHeight | Dictionary.h:511-522 | on exact caches, `height(Node*)` equals the cached root height plus one; the cache is the one `update_node` sets at Dictionary.h:732-739 |
| TreeModel.AvlMinSize | Dictionary.h:686-712 | a balanced tree with exact caches of height h has at least the Fibonacci-like minimum number of nodes for h |
| TreeModel.AvlHeightLogarithmic | Dictionary.h:686-712 | the balance the dispatch keeps bounds the height logarithmically: 2^(height/2) <= size + 1 |
| Balancing.RotateLeft | Dictionary.h:614-625 | the former right child becomes the root, the old root its left child; the in-order sequence is unchanged; caches of the moved nodes are exact when the three subtrees' are |
| Balancing.RotateLeftKeepsOrder | Dictionary.h:614-625 | a left rotation keeps search-tree order and the bindings |
| Balancing.RotateRight | Dictionary.h:630-642 | the mirror of the left rotation: former left child becomes the root, same in-order sequence, exact caches |
| Balancing.RotateRightKeepsOrder | Dictionary.h:630-642 | a right rotation keeps search-tree order and the bindings |
| Balancing.ExactCanBalance | Dictionary.h:686-712 | with exact caches every child pointer `balance` and its cases dereference is non-null |
| Balancing.LeftLeftRepairs | Dictionary.h:689-693 | in the left-left case (bf -2, left bf <= 0) a right rotation gives a balanced exact tree at most one lower |
| Balancing.RightRightRepairs | Dictionary.h:699-704 | in the right-right case (bf 2, right bf >= 0) a left rotation gives a balanced exact tree at most one lower |
| Balancing.LeftRightRepairs | Dictionary.h:694-697 | in the left-right case (bf -2, left bf > 0) the left child's right child exists, and the double rotation gives a balanced exact tree exactly one lower |
| Balancing.RightLeftRepairs | Dictionary.h:705-707 | in the right-left case (bf 2, right bf < 0) the right child's left child exists, and the double rotation gives a balanced exact tree exactly one lower |
| Balancing.RightRight | Dictionary.h:676-681 | `rrRotate`: same in-order sequence, order and bindings kept, caches exact, and it repairs the right-right case |
| Balancing.LeftLeft | Dictionary.h:667-671 | `llRotate` as labelled (a right rotation): same in-order sequence, order and bindings kept, caches exact, repairs the left-left case |
| Balancing.LeftRight | Dictionary.h:657-662 | `lrRotate` as labelled (left rotation of the left child, then right rotation): same in-order sequence, order and bindings kept, caches exact, repairs the left-right case |
| Balancing.RightLeft | Dictionary.h:647-652 | `rlRotate` as labelled (right rotation of the right child, then left rotation): same in-order sequence, order and bindings kept, caches exact, repairs the right-left case |
| Balancing.Balance | Dictionary.h:686-712 | a node within -1..1 is returned unchanged; otherwise the selected case keeps the in-order sequence, order, bindings and exact caches, and on AVL subtrees with exact caches it returns a balanced tree at most one lower |
| TreeOps.Search | Dictionary.h:760-774 | a returned node holds the searched key, which is bound in the tree; on an ordered tree every bound key is found |
| TreeOps.Exists | Dictionary.h:604-607 | on an ordered tree, `exists` holds exactly when the key is bound |
| TreeOps.GetMax | Dictionary.h:489-497 | the key reached by following right children is bound, and on an ordered tree it is the largest key |
| TreeOps.GetMin | Dictionary.h:70-72 | the key reached by following left children is bound, and on an ordered tree it is the smallest key, as the declaration promises |
| TreeOps.Copy | Dictionary.h:745-757 | the copy has the same shape, keys, infos and caches as the original |
| TreeOps.RebalanceNode | Dictionary.h:406-408 | `update_node` then `balance` on a node whose AVL subtrees differ in height by at most two gives an AVL tree with the node's bindings, at most one lower, and the same height when the subtrees already differed by at most one |
| TreeOps.InsertRightStep | Dictionary.h:401-408 | after inserting into the right subtree, rebalancing the node gives an AVL tree with the new binding added, growing by at most one level |
| TreeOps.InsertLeftStep | Dictionary.h:403-408 | the mirror of the right step, for the left subtree |
| TreeOps.InsertNode | Dictionary.h:390-412 | inserting an absent key into an AVL tree gives an AVL tree whose bindings are the old ones plus the new binding, at most one level taller |
| TreeOps.RemoveLeftStep | Dictionary.h:452-482 | after removing from the left subtree, rebalancing gives an AVL tree with the binding removed, at most one level lower |
| TreeOps.RemoveRightStep | Dictionary.h:454-482 | the mirror of the left step, for the right subtree |
| TreeOps.SpliceStep | Dictionary.h:457-460 | a node with at most one child is replaced by the other child: an AVL tree without the node's binding, at most one level lower |
| TreeOps.ReplaceByMaxStep | Dictionary.h:462-469 | moving the left maximum into the node and removing it from the left gives an AVL tree without the node's original binding |
| TreeOps.ReplaceByMinStep | Dictionary.h:470-477 | moving the right minimum into the node and removing it from the right gives an AVL tree without the node's original binding |
| TreeOps.RemoveNode | Dictionary.h:447-483 | removing a key from an AVL tree gives an AVL tree whose bindings are the old ones without the key, every other info unchanged, at most one level lower |
| TreeOps.RemoveAbsentIsIdentity | Dictionary.h:447-483 | removing an absent key from an AVL tree returns the same tree |
| Dictionaries.Dictionary.constructor | Dictionary.h:281-283 | a new dictionary is empty |
| Dictionaries.Dictionary.Insert | Dictionary.h:418-430 | a present key leaves tree and bindings unchanged (the old info is kept); otherwise the recursive insert adds the binding; the AVL invariant holds after |
| Dictionaries.Dictionary.Remove | Dictionary.h:434-442 | an absent key leaves the tree unchanged; otherwise the recursive remove runs; the bindings lose the key; the AVL invariant holds after |
| Dictionaries.Dictionary.Exists | Dictionary.h:603-607 | true exactly when the key is bound |
| Dictionaries.Dictionary.Height | Dictionary.h:528-533 | the recomputed height equals the cached root height plus one, is 0 exactly for the empty dictionary, and is logarithmic in the size |
| Dictionaries.Dictionary.Clear | Dictionary.h:591-597 | the dictionary becomes empty |
| Dictionaries.Dictionary.Assign | Dictionary.h:719-725 | after assignment from another dictionary the tree equals the other's and the bindings are the other's, the other unchanged; assigning a dictionary to itself empties it |
| SmallTrees.InsertRightOfSingle | Dictionary.h:398-408 | inserting a larger key next to a single node hangs it on the right, balance factor 1 |
| SmallTrees.InsertLeftOfSingle | Dictionary.h:398-408 | inserting a smaller key next to a single node hangs it on the left, balance factor -1 |
| Scenarios.Step3 | dict_test.cpp:21 | the third sample key triggers the right-right rotation at the root and gives a balanced three-node tree |
| Scenarios.Step4 | dict_test.cpp:22 | the fourth sample key goes left of the right child; the tree has height 3 |
| Scenarios.Step5 | dict_test.cpp:115 | removing that key restores the three-node tree of height 2 |
| Scenarios.Step6 | dict_test.cpp:118 | inserting 666 extends the right child |
| Scenarios.Step7 | dict_test.cpp:119 | inserting 32 fills the right child's left side |
| Scenarios.Step8 | dict_test.cpp:120 | inserting 55 triggers a right-right rotation at the root |
| SmallTrees.InsertBelowBalancedPair | Dictionary.h:398-408 | inserting below the left leaf of a balanced three-node tree makes that subtree one level taller without rotating |
| Scenarios.Step9 | dict_test.cpp:121 | inserting -2 gives a tree of height 4 |
| Scenarios.InsertSamples | dict_test.cpp:18-23 | the four sample insertions give the four bindings and a tree of height 3 |
| Scenarios.ExistScenario | dict_test.cpp:29-39 | after one insertion that key exists and three others do not, for any keys |
| Scenarios.ExistTest | dict_test.cpp:29-39 | the test's expectations hold for its own keys |
| Scenarios.InsertionScenario | dict_test.cpp:41-52 | the four sample keys exist and two other keys do not, for any keys in the test's order |
| Scenarios.InsertionTest | dict_test.cpp:41-52 | the test's expectations hold for its own keys |
| Scenarios.RemovalScenario | dict_test.cpp:54-73 | each removed sample key existed before and not after; removing an absent key leaves it absent |
| Scenarios.RemovalTest | dict_test.cpp:54-73 | the test's expectations hold for its own keys |
| Scenarios.ClearScenario | dict_test.cpp:75-90 | the four sample keys exist before `clear` and none after |
| Scenarios.ClearTest | dict_test.cpp:75-90 | the test's expectations hold for its own keys |
| Scenarios.EqualityScenario | dict_test.cpp:92-108 | after assignment both dictionaries report the four sample keys |
| Scenarios.EqualityTest | dict_test.cpp:92-108 | the test's expectations hold for its own keys |
| Scenarios.SelfAssignmentScenario | Dictionary.h:719-725 | assigning the sample dictionary to itself leaves none of the four keys |
| Scenarios.HeightScenario | dict_test.cpp:110-126 | the heights along the test's sequence are 3, 2, 4 and 0 for any keys in the test's order |
| Scenarios.HeightScenarioTail | dict_test.cpp:115-126 | from the sample tree, the remaining heights are 2, 4 and 0 |
| Scenarios.HeightTest | dict_test.cpp:110-126 | the heights are 3, 2, 4 and 0 for the test's own keys |
| SourceDefects.RotateLeftAsWritten | Dictionary.h:614-625 | `lRotate` fails exactly when the right child is null, and otherwise lifts the right child |
| SourceDefects.LeftLeftAsWritten | Dictionary.h:667-671 | `llRotate` as written fails exactly when the right child is null; otherwise it moves the root down to the left, above its old left subtree |
| SourceDefects.LeftRightAsWritten | Dictionary.h:657-662 | `lrRotate` as written fails exactly when the right child is null; otherwise the new root has the same node as both children, and no key of the old left subtree is left |
| SourceDefects.RightLeftAsWritten | Dictionary.h:647-652 | `rlRotate` as written returns a root with the same node as both children, and from an ordered tree its result is not ordered |
| SourceDefects.BalanceAsWritten | Dictionary.h:686-712 | the dispatch as written agrees with the corrected one within -1..1 and in the right-right case; in a left case with a null right child it fails; in the right-left case it breaks order |
| SourceDefects.InsertDescendingFails | Dictionary.h:667-671 | inserting c, b, a (descending) reaches the left-left case, where `balance` as written fails and the corrected one gives b(a, c) |
| SourceDefects.LeftLeftRotatesWrongWay | Dictionary.h:667-671 | inserting a into the AVL tree e(c(b, d), f) reaches the left-left case with a non-null right child; `balance` as written then returns f(e(c(b(a, _), d), _), _), whose root balance factor is -4 and which is not balanced, while the corrected one gives c(b(a, _), e(d, f)) |
| SourceDefects.InsertZigZagLeftFails | Dictionary.h:657-662 | inserting c, a, b reaches the left-right case, where `balance` as written fails and the corrected one gives b(a, c) |
| SourceDefects.InsertZigZagRightMisorders | Dictionary.h:647-652 | inserting a, c, b reaches the right-left case, where `balance` as written returns an unordered tree and the corrected one gives b(a, c) |
| SourceDefects.GetMinAsWritten | Dictionary.h:502-507 | the key found is bound; on an ordered tree it is the minimum exactly when the left subtree holds no key other than it |
| SourceDefects.LeftMaxIsMin | Dictionary.h:502-507 | on an ordered tree with a left child, the left subtree's maximum, which `get_min` as written returns, is the tree's minimum exactly when it is the left subtree's only key |
| SourceDefects.ReplaceByMinAsWritten | Dictionary.h:470-477 | the two-child removal step with `get_min` as written: the in-order sequence is the left subtree, then the chosen key, then the right subtree without it |
| SourceDefects.ReplaceByMinAsWrittenOrdered | Dictionary.h:470-477 | the as-written step keeps order only when `get_min` as written finds the true minimum |
| SourceDefects.MisplaceExampleIsAvl | Dictionary.h:462 | the tree e(b(a, c), h(f(_, g), i)) is a valid AVL tree whose removal of e takes the minimum branch |
| SourceDefects.MisplaceExampleAsWritten | Dictionary.h:470-477 | on that tree `get_min` as written returns g, not f, and g becomes the root with f to its right |
| SourceDefects.RemoveMisplacesKey | Dictionary.h:502-507 | removing e from that tree as written keeps f bound but unreachable by `search`; the corrected removal keeps f reachable |

## Left out

- The `Iterator` class (Dictionary.h:107-258) and the `parent` field are not modelled. `parent` is never assigned anywhere, so the iterator's pointer walks have no defined behaviour to model.
- `print` and the pretty-printer `_print_t`/`print_t` are console output and are not modelled.
- Memory management is not modelled: `delete` in `clear` and in `remove`, the node the splice step drops without freeing, and the destructor. `Clear` models only "the tree becomes empty".
- Dictionaries.Dictionary.Assign: `operator=` reads `dict->root` (Dictionary.h:723) on a reference, which does not compile once `operator=` is instantiated, as equality_test does (dict_test.cpp:101). The model reads `dict.root`, the evident intent.
- The copy constructor (Dictionary.h:291-294) is not modelled. It sets `root` to null and then assigns, which is `Assign` on an empty dictionary.
- TreeOps.Copy: the model states that the copy is equal in every field. Whether the copy shares nodes with the original cannot be expressed on values; the source allocates fresh nodes.
- TreeOps.InsertNode: the `exists` check at each level of the recursion (Dictionary.h:394) tests the whole dictionary, before any change. It always fails after the public check, so it is modelled as the precondition that the key is absent.
- Keys are `int` rather than an arbitrary ordered `Key`.
- Scenarios: the tests are proved for symbolic keys in the test's relative order and infos fixed as in the test. The shapes of the trees along the height test are part of the proof.
- SourceDefects.ReplaceByMinAsWritten: only the two-child step with `get_min` as written is modelled. It recurses into the corrected removal. A removal that is as written at every level is not modelled.

## Findings

| source | as written | input that shows it | evidently intended | confidence | as-written member | corrected member |
|---|---|---|---|---|---|---|
| Dictionary.h:667-671 | `llRotate` calls `rrRotate`, a left rotation, in the left-left case; it fails when the right child is null (as for the first input); otherwise it rotates the wrong way and leaves a balance factor beyond -2 (the second input, see SourceDefects.LeftLeftRotatesWrongWay) | insert 3, 2, 1; or insert 1 into 5(3(2, 4), 6) | a right rotation, `rRotate(destination)` | high; not executed | SourceDefects.InsertDescendingFails | Balancing.LeftLeft |
| Dictionary.h:657-662 | `lrRotate` rotates the root itself left and stores the result in the root's left child | insert 3, 1, 2 | rotate the left child left, then the root right | high; not executed | SourceDefects.InsertZigZagLeftFails | Balancing.LeftRight |
| Dictionary.h:647-652 | `rlRotate` finishes with `lrRotate` instead of `lRotate` | insert 1, 3, 2 | rotate the right child right, then the root left | high; not executed | SourceDefects.InsertZigZagRightMisorders | Balancing.RightLeft |
| Dictionary.h:502-507 | `get_min` steps left once and then calls `get_max` | remove 5 from 5(2(1, 3), 8(6(_, 7), 9)), the tree that inserting 5, 2, 8, 1, 3, 6, 9, 7 builds | follow left children to the minimum | high; not executed | SourceDefects.RemoveMisplacesKey | TreeOps.RemoveNode |

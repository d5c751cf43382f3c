# Pointer-linked binary search trees and red-black insertion

A model of the trees in `binary_tree/bt.hpp` and its older sibling
`binary_tree/bst.hpp`. Each tree is a `root_` pointer over nodes with
mutable `data_`, `left_`, `right_` and `parent_` fields, plus `color_` in a
red-black node. `BinaryTreeBase` provides `Insert`, `Search`, `Delete`,
`GetHeight` and `Clear`. Each of those calls a recursive virtual hook,
which `BinarySearchTree` and `RBTree` override.

The model keeps that shape:

- `tree_nodes.dfy` (module `TreeNodes`) holds the class `Node`, with the
  five fields and the colour helpers `IsRed`, `SetRed` and `SetBlack`.
- `bt.dfy` (module `Bt`) holds the class `BinaryTreeBase`. Its `const kind`
  (`BinarySearchTree` or `RBTree`) selects the hooks' override. The methods
  rewrite `root`, the node links, the keys and the colours in place.
- A ghost field `tree` holds the value the links represent. `Wf()` ties the
  heap to it: `root` is the root of `tree`, no node occurs twice, and every
  node's key, colour, child links and parent back-link are the ones `tree`
  gives it (`Links.Agree(Links.Info(tree, null))`).
- `trees.dfy` (module `Trees`) is the value side:
  - the datatype `Tree`, with the node object, colour, key and children;
  - key sets, the in-order sequence, BST order and height;
  - a zipper `Ctx` that locates the subtree a recursive call works on;
  - the search, insertion, deletion and rotations as functions, with their
    proofs.
- `red_black.dfy` (module `RedBlack`) holds:
  - the red-black properties: no red node with a red child (`NoRedRed`),
    and equal black counts on every path (`Balanced`);
  - `InsertFixUp` as the pure function `FixUp` over the zipper;
  - the proofs that insertion keeps a red-black tree red-black;
  - the proof that deletion, which the source does not repair, need not.
- `links.dfy` (module `Links`) states how each pointer rewrite (an
  attached leaf, a rotation, a recolouring, a rekeying, a spliced-out node)
  changes the node-to-fields map. It also proves that exactly the fields
  the source writes change.
- `bst.dfy` (module `Bst`) models `bst.hpp`:
  - Its BinarySearchTree inserts and deletes with the same code as
    `bt.hpp`, so it uses a BinarySearchTree-kind `Bt` tree for those.
  - Its search is modelled as written. It returns the root or one of the
    root's children (see Findings).
  - Its `RBTree` and `AVLTree` are stubs: `Insert` gives null and leaves the
    tree empty, `Search` gives null, and `Delete` gives false.

The heap methods take the zipper position `(c, t)` of the node they work
on as ghost parameters, with `tree == Plug(c, t)`. Each one ensures the new
`tree` as a function of `c` and `t`. A recursive hook's ensures is the
corresponding recursive function of `Trees` or `RedBlack`, and the
properties of those functions are proved as lemmas.

## Model

| member | source | states |
|---|---|---|
| `TreeNodes.Node.constructor` | binary_tree/bt.hpp:315-317 | a new RB node holds its key, is red, and has null left, right and parent |
| `TreeNodes.Node.SetRed` | binary_tree/bt.hpp:323 | the node's colour becomes red and nothing else changes |
| `TreeNodes.Node.SetBlack` | binary_tree/bt.hpp:324 | the node's colour becomes black and nothing else changes |
| `Trees.Find` | binary_tree/bt.hpp:230-240 | the subtree the search descends to holds the target at its root, and that node belongs to the tree |
| `Trees.FindIffKey` | binary_tree/bt.hpp:399-409 | in an ordered tree the search succeeds exactly when the target is one of the keys |
| `Trees.Height` | binary_tree/bt.hpp:125-134 | the height is 0 exactly for the empty tree |
| `Trees.HeightSize` | binary_tree/bt.hpp:125-134 | the height is 0 exactly for the empty tree and never exceeds the node count |
| `Trees.InsertRec` | binary_tree/bt.hpp:202-226 | an absent key is attached as a red leaf: the keys grow by exactly k, the nodes by exactly the new one, the search for k finds that leaf, and no node occurs twice |
| `Trees.Descend` | binary_tree/bt.hpp:208-224 | the slot where the search for an absent key ends lies in the same whole tree (filling it with nothing gives that tree back), at most the subtree's height below the start |
| `Trees.DescendPlug` | binary_tree/bt.hpp:208-224 | the descent ends at an empty slot of the whole tree; putting the leaf there is the insertion into the subtree |
| `Trees.InsertOrdered` | binary_tree/bt.hpp:208-224 | insertion keeps BST order (left keys < key < right keys) |
| `Trees.DeleteKey` | binary_tree/bt.hpp:243-297 | deletion only removes node objects; an absent key leaves the tree unchanged |
| `Trees.DeleteOrdered` | binary_tree/bt.hpp:243-297 | deletion keeps BST order and removes exactly the key k |
| `Trees.DeleteMax` | binary_tree/bt.hpp:286-292 | removing the rightmost node takes exactly the maximum from the key set and only removes node objects |
| `Trees.Max` | binary_tree/bt.hpp:462-465 | the key the predecessor loop stops at is a key of the left subtree |
| `Trees.MaxIsLargest` | binary_tree/bt.hpp:286-289 | the node the predecessor loop stops at holds the largest key of the left subtree |
| `Trees.DeleteMaxOrdered` | binary_tree/bt.hpp:286-292 | splicing out the rightmost node keeps order and removes exactly its key |
| `Trees.PredecessorOrdered` | binary_tree/bt.hpp:285-293 | a two-child node that takes its predecessor's key, with the predecessor removed, keeps order and loses exactly its own old key |
| `Trees.SpineMax` | binary_tree/bt.hpp:462-465 | following right links from a subtree's root ends at its maximum, and deleting the maximum there deletes it from the subtree |
| `Trees.DeleteStep` | binary_tree/bt.hpp:246-249 | descending left or right keeps the tree, the search result and the deletion result, and the subtree shrinks |
| `Trees.PredecessorStep` | binary_tree/bt.hpp:459-470 | rekeying the node with the predecessor's key and deleting the predecessor from its own position is the deletion of the node's key |
| `Trees.RotateLeft` | binary_tree/bt.hpp:478-510 | the rotated tree keeps the in-order key sequence, the node objects and their distinctness, and has a left child |
| `Trees.RotateRight` | binary_tree/bt.hpp:513-544 | the rotated tree keeps the in-order key sequence, the node objects and their distinctness, and has a right child |
| `Trees.RotationsInverse` | binary_tree/bt.hpp:479-521 | a right rotation undoes a left rotation and the reverse |
| `RedBlack.FixUp` | binary_tree/bt.hpp:548-610 | the repair only recolours and relinks: its result is a non-empty tree holding exactly the node objects of the whole tree it started from |
| `RedBlack.FixUpRedParent` | binary_tree/bt.hpp:554-604 | where the repair is defined, a red parent has a grandparent; a red uncle recolours and moves the repair up two levels, where it is still defined; an inner grandchild is rotated into an outer one at the same depth; an outer one ends in a recolouring and a rotation of the grandparent |
| `RedBlack.FixUpInorder` | binary_tree/bt.hpp:548-610 | the repair keeps the in-order key sequence |
| `RedBlack.RecolorInorder` | binary_tree/bt.hpp:562-567 | the recolouring of case 2.1 keeps the in-order key sequence |
| `RedBlack.InnerStepInorder` | binary_tree/bt.hpp:573-588 | the rotation of case 2.2 keeps the in-order key sequence |
| `RedBlack.OuterStepInorder` | binary_tree/bt.hpp:590-603 | the recolouring and rotation of case 2.3 keep the in-order key sequence |
| `RedBlack.FixUpKeys` | binary_tree/bt.hpp:548-610 | the repair keeps the key set |
| `RedBlack.FixUpRootBlack` | binary_tree/bt.hpp:550-553 | when the root is black, or the repaired node is the root, the root is black after the repair (the source has no final blackening of the root, so a red root above a black parent stays red) |
| `RedBlack.RecolorKeepsInvariant` | binary_tree/bt.hpp:562-569 | after case 2.1 the grandparent is a red subtree without inner red-red edges, balanced, in a context that is otherwise valid: the repair can go on from there |
| `RedBlack.RotateKeepsInvariant` | binary_tree/bt.hpp:590-603 | case 2.3 leaves a tree without red-red edges and with equal black counts |
| `RedBlack.FixUpValid` | binary_tree/bt.hpp:548-610 | a red node under a black root whose only violation is a red parent is repaired into a valid red-black tree |
| `RedBlack.InsertStep` | binary_tree/bt.hpp:373-386 | descending into an existing child keeps the tree, the search result, the plain insertion and the red-black insertion |
| `RedBlack.AttachStep` | binary_tree/bt.hpp:376-392 | at an empty child slot the key is absent; attaching the red leaf there is the plain insertion, and the red-black insertion is the repair from that leaf |
| `RedBlack.RBInsertIn` | binary_tree/bt.hpp:365-395 | inserting below a position gives a tree holding the nodes of the whole tree and the new node |
| `RedBlack.RBInsert` | binary_tree/bt.hpp:365-395 | the red-black insertion adds exactly the new key to the key set and exactly the new node to the node set |
| `RedBlack.RBInsertInorder` | binary_tree/bt.hpp:365-395 | wherever the repair is defined, the red-black insertion has the in-order sequence of the plain insertion |
| `RedBlack.RBInsertCorrect` | binary_tree/bt.hpp:365-395 | inserting into a valid red-black tree is always defined and gives a valid red-black tree with the in-order sequence of the plain insertion |
| `RedBlack.RBInsertRootBlack` | binary_tree/bt.hpp:365-395 | in any tree with a black or absent root the repair never meets a red root, and the red-black insertion leaves a black root |
| `RedBlack.RBHeightBound` | binary_tree/bt.hpp:548-610 | in a valid red-black tree of n nodes, the height is at most twice the black height, 2 to the black height is at most n + 1, the height is at most 2 log2(n + 1), and 2 to the height is at most (n + 1) squared |
| `RedBlack.InsertAfterDeleteFaults` | binary_tree/bt.hpp:553-558 | inserting 1 and 2 gives a valid red-black tree; deleting 1 leaves the red node 2 as root, and the repair after inserting 3 meets that red parent without a grandparent |
| `RedBlack.DeleteCanLeaveRedRoot` | binary_tree/bt.hpp:412-475 | a valid red-black tree whose delete leaves a red root, because no recolouring is done |
| `RedBlack.DeleteCanUnbalance` | binary_tree/bt.hpp:424-432 | a valid red-black tree whose delete of a black leaf leaves unequal black counts |
| `Links.PlugAttach` | binary_tree/bt.hpp:376-379 | attaching a leaf changes only the new node (key, red, no children, the parent) and the parent's child link on that side |
| `Links.PlugRecolor` | binary_tree/bt.hpp:322-324 | recolouring a node changes only that node's colour in the heap |
| `Links.PlugRotateLeft` | binary_tree/bt.hpp:487-509 | a left rotation relinks only P, V, V's left child R and P's parent as the diagram shows; every other node keeps its fields |
| `Links.RotateLeftElsewhere` | binary_tree/bt.hpp:487-509 | a node other than P, V, V's left child and P's parent keeps its fields across a left rotation |
| `Links.PlugRotateRight` | binary_tree/bt.hpp:522-543 | a right rotation relinks only P, F, F's right child K and P's parent; every other node keeps its fields |
| `Links.RotateRightElsewhere` | binary_tree/bt.hpp:522-543 | a node other than P, F, F's right child and P's parent keeps its fields across a right rotation |
| `Links.PlugSplice` | binary_tree/bt.hpp:420-458 | splicing out a node with at most one child gives its place under the parent (or the root) to that child, the child's parent link becomes the old parent, and no other node changes |
| `Links.PlugRekey` | binary_tree/bt.hpp:467 | copying the predecessor's key changes only that node's key |
| `Bt.BinaryTreeBase.constructor` | binary_tree/bt.hpp:59 | a new tree is empty, with a null root |
| `Bt.BinaryTreeBase.Recolor` | binary_tree/bt.hpp:322-324 | SetRed or SetBlack carries the heap to the assignment that differs only in that node's colour |
| `Bt.BinaryTreeBase.Paint` | binary_tree/bt.hpp:322-324 | SetRed/SetBlack on a tree node recolours just that node; root and nodes unchanged |
| `Bt.BinaryTreeBase.RelinkLeft` | binary_tree/bt.hpp:487-509 | the pointer writes of LeftRotate carry the heap from the old to the rotated assignment, and V replaces P as root when P was the root |
| `Bt.BinaryTreeBase.LeftRotate` | binary_tree/bt.hpp:478-510 | the represented tree becomes the left rotation at P, with the same node objects |
| `Bt.BinaryTreeBase.RelinkRight` | binary_tree/bt.hpp:522-543 | the pointer writes of RightRotate carry the heap from the old to the rotated assignment, and F replaces P as root when P was the root |
| `Bt.BinaryTreeBase.RightRotate` | binary_tree/bt.hpp:513-544 | the represented tree becomes the right rotation at P, with the same node objects |
| `Bt.BinaryTreeBase.RecolorWithUncle` | binary_tree/bt.hpp:562-567 | case 2.1: parent and uncle become black and the grandparent red |
| `Bt.BinaryTreeBase.RecolorRotate` | binary_tree/bt.hpp:593-603 | case 2.3: parent black, grandparent red, then the grandparent is rotated away from the node's side |
| `Bt.BinaryTreeBase.InsertFixUp` | binary_tree/bt.hpp:548-610 | wherever it never meets a red parent at the root, the repair turns the tree into FixUp of the node's position, the pure function the red-black lemmas are about |
| `Bt.BinaryTreeBase.TestRotate` | binary_tree/bt.hpp:355-362 | the tree becomes the left or the right rotation at the node as the flag selects; the in-order key sequence and the key set are kept, so BST order holds afterwards exactly when it held before and a valid tree stays valid |
| `Bt.BinaryTreeBase.SetLinks` | binary_tree/bt.hpp:378-379 | the two writes `node->parent_ = parent` and the parent's child link carry the heap to the assignment with the attached node |
| `Bt.BinaryTreeBase.Link` | binary_tree/bt.hpp:378-379 | the new node becomes the parent's child on the side the key selects, with the parent as back-link; the nodes grow by exactly it |
| `Bt.BinaryTreeBase.RepairLeaf` | binary_tree/bt.hpp:380-381 | a fresh leaf is coloured red and repaired: the tree becomes FixUp from that leaf |
| `Bt.BinaryTreeBase.AttachRoot` | binary_tree/bt.hpp:366-370 | an empty tree gets the node as root (then blackened by the RB repair) |
| `Bt.BinaryTreeBase.AttachBelow` | binary_tree/bt.hpp:376-392 | a node attached at an empty slot gives the plain insertion, or its RB repair |
| `Bt.BinaryTreeBase.InsertRecursively` | binary_tree/bt.hpp:365-395 | true exactly when the key was absent below the parent; then the tree is the plain or the red-black insertion of it, the nodes grow by the new one; false leaves the tree unchanged |
| `Bt.BinaryTreeBase.Insert` | binary_tree/bt.hpp:94-101 | null exactly for a duplicate key, with no change; otherwise a fresh node, keys grow by exactly k, order and back-links kept; a BST returns the node holding k that the search finds; an RB tree with a black root keeps a black root, and a valid RB tree stays valid |
| `Bt.BinaryTreeBase.SearchRecursively` | binary_tree/bt.hpp:230-240 | the result is the node at which the search for the target stops, a node of the subtree holding the target, or null |
| `Bt.BinaryTreeBase.Search` | binary_tree/bt.hpp:104-106 | non-null exactly when the target is a key, and then a node of the tree holding it; it changes nothing |
| `Bt.BinaryTreeBase.GetHeightInternal` | binary_tree/bt.hpp:125-134 | the height of the subtree below the node: 0 for null, 1 + the larger child's otherwise |
| `Bt.BinaryTreeBase.GetHeight` | binary_tree/bt.hpp:114-116 | 0 exactly for the empty tree, otherwise the height, at most the node count |
| `Bt.BinaryTreeBase.Clear` | binary_tree/bt.hpp:119-122 | the root is null, the height is 0 and every search fails |
| `Bt.BinaryTreeBase.Unlink` | binary_tree/bt.hpp:420-458 | the three pointer cases of delete carry the heap to the spliced-out assignment; the child or null becomes root_ when the node was the root |
| `Bt.BinaryTreeBase.SpliceOut` | binary_tree/bt.hpp:424-458 | a node with at most one child is replaced by that child (or nothing) in the tree |
| `Bt.BinaryTreeBase.SetKey` | binary_tree/bt.hpp:467 | writing data_ carries the heap to the rekeyed assignment |
| `Bt.BinaryTreeBase.CopyKey` | binary_tree/bt.hpp:467 | the node's key in the tree becomes the given one; the node set is unchanged |
| `Bt.BinaryTreeBase.Predecessor` | binary_tree/bt.hpp:462-465 | the loop stops at the rightmost node of the left subtree, which has no right child and holds the left subtree's maximum |
| `Bt.BinaryTreeBase.ReplaceByPredecessor` | binary_tree/bt.hpp:459-470 | the two-child case deletes the node's key from its subtree as DeleteKey says |
| `Bt.BinaryTreeBase.DeleteRecursively` | binary_tree/bt.hpp:412-475 | true exactly when the target is found below the node, and the subtree becomes DeleteKey of it; no colour is touched |
| `Bt.BinaryTreeBase.Delete` | binary_tree/bt.hpp:109-111 | true exactly when the key was present; the key set loses exactly it, order and back-links are kept, no node changes colour, an absent key changes nothing |
| `Bst.Probe` | binary_tree/bst.hpp:162-172 | the answer is non-null exactly when the target is present; it is the root or a child of the root; it is the matching subtree when the target sits at the root or a child |
| `Bst.SearchReturnsWrongNode` | binary_tree/bst.hpp:166-168 | in the ordered chain 1, 2, 3 the search for 3 answers with the node holding 2 |
| `Bst.BinaryTreeBase.constructor` | binary_tree/bst.hpp:44 | a new tree of any kind is empty |
| `Bst.BinaryTreeBase.SearchRecursively` | binary_tree/bst.hpp:162-172 | the node answered is the root of Probe's subtree: null, the node itself or one of its two children |
| `Bst.BinaryTreeBase.Search` | binary_tree/bst.hpp:81-84 | non-null exactly when the tree is a BinarySearchTree holding the target; the stubs always give null |
| `Bst.BinaryTreeBase.Insert` | binary_tree/bst.hpp:72-79 | a BinarySearchTree attaches a fresh leaf unless the key is present (then null, no change), and the returned node holds the key and is where the search for it ends; the stubs always give null and stay empty |
| `Bst.BinaryTreeBase.Delete` | binary_tree/bst.hpp:86-89 | a BinarySearchTree returns true exactly when the key was present and removes exactly it; the stubs return false |

## Left out

- Printing: `operator<<`, `InorderPrint`, `TreePrint`, `TreePrintInternal` and `ToString`. These are stream output only.
- Memory management: `new`, `delete` and `Destroy`. A freed node is one that leaves `Repr()`, and `Clear` only nulls the root.
- `AVLTree` in `bt.hpp`: its hooks are empty stubs without logic.
- The comparison operator macros: keys are `int`, compared directly.
- `GetHeight` returns a C++ `int`. The model assumes the result does not overflow; the recursion of `GetHeightInternal` would exhaust the stack long before.
- Bt.BinaryTreeBase.Insert: on an RBTree it requires `RedBlack.Repairable` of the position where the search for k ends: the repair must never meet a red parent that is the root. There `InsertFixUp` of the source dereferences the null grandparent (bt.hpp:557-558), which has no defined result to model. A black root always satisfies the requirement (`RedBlack.RBInsertRootBlack`); a red root comes from `Delete` (see Findings) or from `TestRotate` at the root, and then some insertions fault and others do not.
- Bt.BinaryTreeBase.Insert: for an RBTree it does not state which node `Search(k)` finds afterwards, because that needs the node-to-key map through every rotation of the repair; the key set and the node set are stated.
- Bt.BinaryTreeBase.Delete: it states that the node set only shrinks, not which object is freed. In the two-child case the freed object is the predecessor, not the node that held the key.
- Bt.BinaryTreeBase.InsertFixUp: the source's `has_rotate` flag and its `if` are folded into one `else if` chain. The flag is set exactly in the two rotate branches, so the order of writes is the same.
- The recursive functions of `bt.hpp` are split across helper methods (for example `Unlink`, `Link`, `Predecessor` and `RepairLeaf`). Each helper performs one stretch of the source function's writes, in the source's order.
- Nodes of a `bst.hpp` tree and of a `bt.hpp` BinarySearchTree carry a `color` field that those trees never read or write. The colour is fixed to red at construction.
- Red-black delete repair and a validity checker: the source has neither. The delete is proved to keep colours, and `RedBlack.DeleteCanLeaveRedRoot` and `RedBlack.DeleteCanUnbalance` show it can break the red-black properties.

## Findings

| source | as written | input that shows it | evidently intended | confidence | as-written member | corrected member |
|---|---|---|---|---|---|---|
| binary_tree/bt.hpp:553-558 | RBTree's own `DeleteRecursively` (bt.hpp:412-475) is the plain BST delete and never recolours, so the root can become red; `InsertFixUp` then reads `grand_parent->left_` for a red parent that is the root, with `grand_parent` null | `Insert(1)`, `Insert(2)`, `Delete(1)`, `Insert(3)`: after the delete the red node 2 is the root and the new node 3 becomes its child | insertion keeps a valid red-black tree valid and never meets a red root, which needs a delete that restores the red-black properties | not executed | `RedBlack.InsertAfterDeleteFaults` | `RedBlack.RBInsertCorrect` |
| binary_tree/bst.hpp:166-168 | when the target is below the root, `SearchRecursively` returns `node->left_` or `node->right_` once the recursive call succeeds, not the node that call found | keys inserted as 1, 2, 3 (a chain of right children); `Search(3)` returns the node holding 2 | return the node found by the recursive call, as `bt.hpp:230-240` does | not executed | `Bst.SearchReturnsWrongNode` | `Bt.BinaryTreeBase.SearchRecursively` |

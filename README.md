# Binary search tree (`bst.h`), modelled in Dafny

`BST<T>` is an unbalanced binary search tree. Its nodes (`BNode`) hold an element (`data`) and three links:
- `pLeft` points to smaller elements.
- `pRight` points to larger or equal elements.
- `pParent` is a non-owning back link.

The tree keeps a `root` pointer and an element count, `numElements`. An `iterator` wraps a node pointer. `end()` is the null pointer, and `++`/`--` walk the tree in order by following child and parent links.

This project models that core with `int` elements:
- `insert` (with `keepUnique`), `find`, `erase` with its three splice cases and `deleteNode`.
- `begin`, `size`, `empty`, and the iterator's `++`, `--`, `*` and `==`.
- `clear` and `deleteBinaryTree`.
- The copy, move and initializer-list constructors and assignments, which use the reconciling `copyBinaryTree`.
- `swap`.

## Representation

- **Nodes.** A node is a heap object, `TreeNode.Node`, with fields `data`, `left`, `right` and `parent`, all updated in place as the source does.
- **The tree.** `BinarySearchTree.BST` has the fields `root` and `numElements`, plus two ghost fields:
  - `shape`, a `Tree` value that mirrors the node graph: nodes, elements and subtrees.
  - `Repr`, the set of its nodes.
- **Validity.** `Valid()` says all of the following:
  - `shape` has no repeated node.
  - It is a search tree: everything in a left subtree is smaller than the node, and everything in a right subtree is larger or equal.
  - `root` is its root.
  - Every node's four fields agree with `shape`, including each parent link pointing back.
  - `numElements` is its node count.
- **Link facts.** The agreement is one `Fact` per node, and `Holds` says every fact matches the heap.
- **Reference definitions.** Operations are proved against functions on `Tree`, which are the reference here:
  - `Lookup` for the search.
  - `Ins` for insertion.
  - `Remove` and `RemoveRoot` for erasure.
  - `Order` and `Keys` for the in-order node and element sequences.
  - `Succ` and `Pred` for in-order neighbours.
- **Iterators.** An iterator is the value `Iterator(pNode)`. `end()` is `Iterator(null)`.
- **Zipper.** A position inside a tree is written with a zipper, `Ctx`. `Plug(c, s)` is the whole tree, with `s` at the hole of `c`.

Files: `nodes.dfy`, `shapes.dfy`, `paths.dfy`, `links.dfy`, `updates.dfy`, `successor.dfy`, `bulk.dfy` (deleteBinaryTree and copyBinaryTree), `bst.dfy` (the class and its iterator) and `findings.dfy`.

## Model

| member | source | states |
|---|---|---|
| TreeNode.Node.constructor | bst.h:154 | a new node holds `t`, and its three links are null |
| TreeNode.Node.AddLeft | bst.h:673-678 | the left link becomes `n`; when `n` is a node, its parent link points back. Nothing else of either node changes |
| TreeNode.Node.AddRight | bst.h:685-690 | the same on the right link |
| TreeNode.Node.AddLeftValue | bst.h:697-701 | a fresh leaf holding `t` becomes the left child, with its parent link back; the right link, data and parent are unchanged |
| TreeNode.Node.AddRightValue | bst.h:719-723 | a fresh leaf holding `t` becomes the right child, with its parent link back; the left link is unchanged. This is the intended attachment (see Findings) |
| BinarySearchTree.BST.constructor | bst.h:270-273 | the new tree is valid and empty |
| BinarySearchTree.BST.Size | bst.h:119 | for a valid tree, the count is the length of the in-order element sequence |
| BinarySearchTree.BST.Empty | bst.h:118 | true exactly when the in-order element sequence is empty |
| BinarySearchTree.BST.Begin | bst.h:624-637 | the first node in in-order, or `end()` when the tree is empty |
| BinarySearchTree.Leftmost | bst.h:630-634 | following left links reaches the minimum of the subtree, the first node of its in-order sequence |
| BinarySearchTree.Rightmost | bst.h:809-813 | following right links reaches the last node of the subtree's in-order sequence |
| BinarySearchTree.BST.Find | bst.h:645-657 | returns the node where the `t < data ? left : right` search meets `x`, which holds `x`; `end()` exactly when `x` is not an element |
| Updates.LookupAbsent | bst.h:645-657 | in a search tree, the search misses exactly when `x` is not an element |
| Updates.LookupHolds | bst.h:645-657 | the node the search meets sits at an in-order position holding `x` |
| BinarySearchTree.BST.Insert | bst.h:381-454 | in an empty tree, a fresh root holding `x`, count 1, returned with true. With `keepUnique`, meeting `x` returns that node with false and changes nothing. Otherwise one fresh node holding `x` is hung where the search ends (the tree becomes `Ins(old, x, node)`), the count grows by one, the tree stays valid, and the node is returned with true |
| BinarySearchTree.BST.Link | bst.h:410-437 | the new leaf hangs at the null link where the search for `x` ends: left when `x` is smaller, right otherwise. The shape is then `Ins`, and `Repr` gains exactly that node |
| BinarySearchTree.Attach | bst.h:416-435 | the heap update of that step: the link facts of the tree with the new leaf hold |
| Updates.InsKeys | bst.h:410-437 | insertion adds exactly one occurrence of `x` to the elements, as a multiset |
| Updates.InsValues | bst.h:410-437 | insertion adds `x` to the set of elements |
| Updates.InsOrdered | bst.h:410-437 | insertion keeps search-tree order (bst.h:178-179) |
| Updates.InsDistinct | bst.h:410-437 | insertion of a new node keeps the nodes distinct |
| Updates.InsNodes | bst.h:410-437 | insertion adds exactly the new node |
| BinarySearchTree.BST.Erase | bst.h:537-603 | `erase(end())` returns `end()` and changes nothing. Otherwise the tree becomes `Remove(old, d)`, `Repr` loses exactly `d`, the tree stays valid with the count one less, and the in-order successor of `d` is returned. This is the intended behaviour: it advances with the corrected `++` (`Iterator.Increment`), whereas erase as written faults at a root without a right subtree (`Findings.EraseAsWritten`) |
| BinarySearchTree.BST.DeleteNode | bst.h:842-865 | `d`, with at most one subtree, is replaced by that subtree at its parent, or becomes the tree at the root; the tree stays well formed |
| BinarySearchTree.Rehang | bst.h:846-858 | the parent drops `d` and adopts `d`'s only subtree; the link facts of the new tree hold |
| BinarySearchTree.Detach | bst.h:860-864 | at the root, the only subtree loses its parent link; an empty subtree leaves the tree empty |
| BinarySearchTree.BST.ReplaceBySuccessor | bst.h:558-597 | with two subtrees, the leftmost node of the right subtree takes `d`'s place; the tree becomes `Plug(c, RemoveRoot(s))` and stays well formed |
| BinarySearchTree.SpliceSuccessor | bst.h:560-591 | the successor search and link rewrites leave the link facts of the spliced tree holding |
| BinarySearchTree.Rewire | bst.h:565-591 | the link writes of the third case leave every node of the scene linked as in the spliced tree |
| Updates.RemoveKeys | bst.h:537-603 | erasure removes exactly the element at `d`'s in-order position and keeps all others in order |
| Updates.RemoveOrder | bst.h:537-603 | erasure removes exactly `d` from the in-order node sequence |
| Updates.RemoveSucc | bst.h:544-597 | the returned successor sits, after erasure, at the position `d` had |
| Updates.RemoveNodes | bst.h:600 | erasure removes exactly `d`: the nodes stay distinct and the count drops by one |
| Updates.SpliceOrdered | bst.h:544-597 | each splice case keeps search-tree order |
| BinarySearchTree.Iterator.Increment | bst.h:751-791 | prefix `++` moves to the in-order successor, or `end()` after the last node; `end()` stays `end()` |
| BinarySearchTree.Iterator.Decrement | bst.h:799-838 | prefix `--` moves to the in-order predecessor, or `end()` before the first node; `end()` stays `end()` |
| Shapes.IterationIsInOrder | bst.h:751-791 | stepping with `++` from `begin()` visits exactly the in-order node sequence, then reaches `end()` |
| Shapes.StepInverse | bst.h:751-838 | `--` undoes `++`, and `++` undoes `--`, wherever the step lands on a node |
| Shapes.Neighbours | bst.h:751-838 | the successor and predecessor of the node at in-order position `i` are those at `i + 1` and `i - 1` |
| Shapes.OrderedSorted | bst.h:178-179 | in a search tree the in-order elements are sorted |
| Shapes.DistinctCount | bst.h:136 | the count of a tree without repeated nodes is its number of nodes |
| BinarySearchTree.BST.Deref | bst.h:227-230 | `*it` is the element at the iterator's in-order position |
| BinarySearchTree.BST.IteratorsEqual | bst.h:217-220 | two iterators at in-order positions are equal exactly when the positions are |
| BinarySearchTree.BST.Clear | bst.h:610-617 | afterwards the tree is valid and empty, with null root and count 0, and every released node has lost its child links; harmless on an empty tree |
| Bulk.DeleteBinaryTree | bst.h:868-877 | post-order release: every node of the subtree loses both child links |
| Bulk.CopyBinaryTree | bst.h:880-919 | the result has the shape and elements of the source, parent links consistent. It reuses the destination's root node when there is one, keeping its parent link; otherwise it is a fresh root with a null parent. An empty source clears the destination. The copy shares no node with the source |
| Bulk.CopyFresh | bst.h:892-895 | without a destination node, a fresh node with the source's element roots the copy |
| Bulk.CopyOnto | bst.h:896-899 | with a destination node, its element is overwritten and it roots the copy |
| Bulk.CopyChildren | bst.h:907-917 | both subtrees are copied onto the matching destination subtrees, and the root links to the copies |
| Bulk.CopyRight | bst.h:913-917 | the right subtree is copied and both copies are linked below the root |
| Bulk.CopyChild | bst.h:907-911 | one subtree is copied, and its root's parent link points to the new parent |
| Bulk.SameShape | bst.h:325-332 | trees with the same shape have the same count, elements and search-tree order |
| BinarySearchTree.BST.Assign | bst.h:325-332 | the tree takes the shape and elements of `rhs`, stays valid with the count of `rhs`, and shares no node with `rhs`, which is unchanged |
| BinarySearchTree.BST.Copy | bst.h:279-283 | a valid tree with the shape and elements of `rhs`, sharing no node with it |
| BinarySearchTree.BST.Move | bst.h:289-297 | the new tree takes the nodes and shape of `rhs`, which is left valid and empty |
| BinarySearchTree.BST.AssignList | bst.h:338-350 | the old nodes are released; the tree holds exactly the elements of the list, duplicates included, in sorted order, all in fresh nodes. This is the intended behaviour: each element goes through the corrected insert (`BST.Insert`); as written, insert hangs larger elements on the left (see Findings, bst.h:430-434, and `Findings.ListLosesAsWritten`) |
| BinarySearchTree.InsertedElements | bst.h:345-348 | each insertion of the loop extends the elements by the next list element |
| BinarySearchTree.BST.FromList | bst.h:303-309 | a valid tree holding exactly the elements of the list, sorted; like `AssignList`, this uses the corrected insert (see Findings, bst.h:430-434) |
| BinarySearchTree.BST.Swap | bst.h:370-375 | the two trees exchange roots, counts, shapes and nodes, and both stay valid |
| BinarySearchTree.BST.AssignMove | bst.h:356-364 | the old nodes are released; the tree takes the contents of `rhs`, which is left valid and empty. Moving a tree onto itself empties it |
| Findings.AddRightAsWritten | bst.h:719-723 | as written, the new node becomes the left child, and the right link is unchanged |
| Findings.AddLeftMovedAsWritten | bst.h:708-712 | as written, the new node becomes the right child, and the left link is unchanged |
| Findings.InsAsWritten | bst.h:410-437 | insertion as written keeps the root, adds at most one node, holds `x` afterwards and no element that was not there or `x`; when the search does not end at a right link it has exactly the old elements and `x` |
| Findings.InsAsWrittenAgrees | bst.h:410-437 | insertion as written equals the intended insertion exactly when the search does not end at a right link |
| Findings.InsMisplaces | bst.h:430-434 | inserting 1 and then 2 as written gives a tree out of order |
| Findings.InsLoses | bst.h:430-434 | inserting 2 as written below 1, which has 0 on its left, loses 0 |
| Findings.InsIteratorAsWritten | bst.h:416-435 | insert as written returns `end()` exactly when the search ends at a right link, and the new node otherwise |
| Findings.ListLosesAsWritten | bst.h:338-350 | `operator=({1, 0, 2})` as written ends with two nodes holding 1 and 2, where the intended insertions keep three elements |
| Findings.IncrementAsWritten | bst.h:751-791 | `++` as written reaches the successor whenever it does not fault, and it faults exactly at a root without a right subtree |
| Findings.UpFromRightSucc | bst.h:770-786 | the climb of `++` reaches the successor of a node without a right subtree |
| Findings.IncrementFaultsAtLast | bst.h:770 | `++` at a root without a right subtree faults, where `end()` is intended |
| Findings.DecrementAsWritten | bst.h:799-838 | `--` as written reaches the predecessor whenever it does not fault, and it faults exactly at a root without a left subtree |
| Findings.UpFromLeftPred | bst.h:819-835 | the climb of `--` reaches the predecessor of a node without a left subtree |
| Findings.DecrementFaultsAtFirst | bst.h:819 | `--` at a root without a left subtree faults, where `end()` is intended |
| Findings.DeleteNodeAsWritten | bst.h:842-865 | deleteNode as written faults exactly at a childless root; otherwise it removes the node as intended |
| Findings.DeleteNodeFaultsAtLoneRoot | bst.h:862-863 | deleteNode as written, called on a leaf at the root, faults, where the empty tree is intended |
| Findings.EraseAsWritten | bst.h:537-603 | erase as written faults exactly when it erases the root and the root has no right subtree, and then it faults in `++itNext` (bst.h:549, 554), before deleteNode; otherwise it gives `Remove(t, n)` and the successor |
| Findings.EraseRootFaults | bst.h:552-556 | erasing the root 2 of the tree with 1 as its left child faults, where the lone leaf 1 and `end()` are intended |

## Left out

- map.h is not part of this model.
- Allocation failure and the rethrown string literals are not modelled; `new` is infallible.
- `delete` is not modelled: a released node's memory is not freed. A node released by `BST.Clear`, `Bulk.DeleteBinaryTree`, `BST.Assign`, `BST.AssignList` or `BST.AssignMove` leaves `Repr` and loses its child links (`Cleared`). The node `BST.Erase` releases leaves `Repr`, and its links are not stated.
- The destructor (bst.h:314-318) only calls `clear()`, so `BST.Clear` models it; there is no destructor member.
- The `isRed` flag is not modelled: no algorithm reads it.
- The `T&&` insert overload (bst.h:459-530) is line for line the `const T&` one and is modelled by the same `Insert`.
- The root re-walk after insertion (bst.h:443-446) is not modelled: the root's parent link is always null, so the loop never runs.
- The `BNode()` default constructor: no algorithm of the tree uses it.
- The `BNode(T&&)` constructor and `addRight(T&&)`: with `int` elements they do the same as `BNode(const T&)` and the intended `addRight(const T&)`, so they are not modelled separately.
- The postfix `++`/`--` (bst.h:234-246) are not modelled: they copy the iterator and then call the prefix forms.
- `end()` is the value `Iterator(null)` and has no member; a copied iterator is the same value.
- Comparators, element types other than `int`, debug macros and test friends are not modelled.
- BinarySearchTree.BST.Assign: does not model self-assignment (`a = a`); it requires two different trees with no shared node. When a destination is larger than the source, the nodes it no longer needs are released (`DeleteBinaryTree`), but its contract does not say so.
- BinarySearchTree.BST.AssignMove: requires the two trees to share no node, which ownership of nodes by one tree guarantees in the source.
- Bulk.CopyChildren: writes the two child links of the copy's root after both subtree copies, where the source writes each through a reference inside the recursive call. Neither copy reads or writes that root, so the order makes no difference.

## Findings

| source | as written | input that shows it | evidently intended | confidence | as-written member | corrected member |
|---|---|---|---|---|---|---|
| bst.h:719-723 | `addRight(const T&)` hangs the new node with `addLeft`, in place of the left subtree | any node: the new node becomes `pLeft`, and `pRight` is unchanged | hang it as the right child | not executed | Findings.AddRightAsWritten | TreeNode.Node.AddRightValue |
| bst.h:430-434 | insert reaches a null right link and calls `addRight(const T&)`, so a larger or equal element is hung on the left, and `iterator(node->pRight)` is returned | insert 1, then 2: 2 becomes the left child of 1 (`Findings.InsMisplaces`); with 0 already left of 1, 0 is lost (`Findings.InsLoses`); the returned iterator is `end()` (`Findings.InsIteratorAsWritten`). `operator=(il)` and `BST(il)` insert each element this way (bst.h:347): `BST({1, 2})` is out of order, and `BST({1, 0, 2})` keeps two nodes, holding 1 and 2, with a count of 3 (`Findings.ListLosesAsWritten`) | the new leaf is the right child and the iterator designates it | not executed | Findings.InsAsWritten | BinarySearchTree.BST.Insert |
| bst.h:708-712 | `addLeft(T&&)` hangs the new node with `addRight`, in place of the right subtree | any node: the new node becomes `pRight`, and `pLeft` is unchanged | hang it as the left child | not executed | Findings.AddLeftMovedAsWritten | TreeNode.Node.AddLeftValue |
| bst.h:770 | `++` reads `pCurrent->pParent->pLeft` with no check on `pParent` | `++` at a root without a right child, such as `begin()` of a one-element tree (`Findings.IncrementFaultsAtLast`); erase runs `++itNext` before deleteNode (bst.h:549, 554), so erasing a root without a right subtree faults here too, such as the root 2 with left child 1 (`Findings.EraseRootFaults`, `Findings.EraseAsWritten`); the model's `BST.Erase` uses the corrected `++` | step to `end()` | not executed | Findings.IncrementAsWritten | BinarySearchTree.Iterator.Increment |
| bst.h:819 | `--` reads `pCurrent->pParent->pRight` with no check on `pParent` | `--` at a root without a left child (`Findings.DecrementFaultsAtFirst`) | step to `end()` | not executed | Findings.DecrementAsWritten | BinarySearchTree.Iterator.Decrement |
| bst.h:863 | deleteNode at the root writes `pNext->pParent` with `pNext` null | deleteNode called on a leaf at the root (`Findings.DeleteNodeFaultsAtLoneRoot`). erase is its only caller and, as written, faults first at bst.h:770 on that input, so this fault is hidden behind the one at bst.h:770 and shows only once `++` is corrected | the tree becomes empty | not executed | Findings.DeleteNodeAsWritten | BinarySearchTree.BST.DeleteNode |

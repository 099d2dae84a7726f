# Order-statistics red-black tree over rational keys

This project models a console program (`ConsoleApplication1.cpp`) that keeps
fractions `numerator/denominator` in a red-black tree and answers rank
queries: "which key is the k-th in order?". Each fraction is reduced to
lowest terms with Euclid's gcd before it is inserted. Keys are compared
numerator first, then denominator. That order is not the order
of the fractions' values: 1/2 comes before 1/3. Equal keys may coexist, so
the tree holds a multiset.

The model has seven modules:

- `Rationals` (`rationals.dfy`): gcd, `simplify` and the key order.
  - The loop of `gcd` is a method proved against a recursive definition.
  - Reduction is proved to keep the ratio, to give coprime parts, and to be
    idempotent.
- `RbShapes` (`shapes.dfy`): the abstract tree `Tree`, and a zipper `Path`
  that describes where a subtree hangs.
  - It also holds the in-order key sequence, the red-black predicates, and
    the lemmas about sorted sequences, searching and the leftmost node.
- `RbFixups` (`fixups.dfy`): one lemma per case of the insert fixup and of the
  delete fixup.
  - Each shows that its case re-establishes the loop invariant of its fixup.
    The final painting of the root (`InsertFinish`) or of x (`DelFinish`)
    makes the whole tree red-black again.
- `Arena` (`arena.dfy`): the nodes of the C++ program as records in a
  sequence of slots, with parent, left and right links as slot indices
  (`NIL` = -1).
  - `Represents` ties the slots to an abstract tree.
  - The `...Stored` lemmas show what each pointer rewrite does to that tree.
- `OrderStatistics` (`ost.dfy`): the class `RedBlackTree`.
  - Its fields `nodes`, `root` and a ghost `shape` are updated in place by
    methods that follow the C++ functions statement by statement.
  - `Valid()` says the slots store `shape`, and `shape` is sorted and
    red-black. Every public operation keeps `Valid()`.
  - `Insert` adds one occurrence of its key and `Remove` removes one.
  - `FindKth(k)` returns the k-th key of `Contents()`, and 0/1 when k is out
    of range.
- `Scenario` (`scenario.dfy`): the program's own test run. With the repaired
  rank query its two queries answer 3/2 and then 4/1. The program as written
  prints 5/2 twice (see Findings).
- `Findings` (`findings.dfy`): the three defects of the source, modelled as
  written and exhibited on concrete trees.

An order-statistics tree usually stores a subtree size in each node, kept up
to date by insert, remove and the rotations. This code has no such field,
and its findKth (line 312) counts a left subtree as one node. The model adds
no field either: its `FindKth` counts the nodes of the left subtree
(`CountNodes`), which makes it the intended rank query.

## Model

All source paths are in `C-StatistickTree/ConsoleApplication1/`.

| member | source | states |
|---|---|---|
| Rationals.ComputeGcd | C-StatistickTree/ConsoleApplication1/ConsoleApplication1.cpp:11-18 | The loop returns Euclid's gcd of its non-negative operands. When one operand is positive, the result divides both, and every common divisor divides the result. |
| Rationals.GcdDivides | C-StatistickTree/ConsoleApplication1/ConsoleApplication1.cpp:11-18 | The gcd divides both operands when one of them is positive. |
| Rationals.GcdGreatest | C-StatistickTree/ConsoleApplication1/ConsoleApplication1.cpp:11-18 | Every common divisor of the operands divides the gcd. |
| Rationals.Simplify | C-StatistickTree/ConsoleApplication1/ConsoleApplication1.cpp:21-25 | Dividing both parts by their gcd yields the reduced fraction. It is in lowest terms and has the same ratio (cross products are equal). |
| Rationals.ReducedSameRatio | C-StatistickTree/ConsoleApplication1/ConsoleApplication1.cpp:21-25 | Reduction keeps the value of the fraction and keeps the denominator positive. |
| Rationals.ReducedIsReduced | C-StatistickTree/ConsoleApplication1/ConsoleApplication1.cpp:21-25 | The reduced parts are coprime. |
| Rationals.ReducedIdempotent | C-StatistickTree/ConsoleApplication1/ConsoleApplication1.cpp:21-25 | Simplifying a simplified fraction changes nothing. |
| Rationals.LessIsStrictTotalOrder | C-StatistickTree/ConsoleApplication1/ConsoleApplication1.cpp:79 | The numerator-major comparison is irreflexive, asymmetric, transitive and total on pairs. |
| Rationals.LessIsNotMagnitude | C-StatistickTree/ConsoleApplication1/ConsoleApplication1.cpp:79 | The key order puts 1/2 before 1/3 although 1/2 is the larger value. |
| RbShapes.RotLCongruent | C-StatistickTree/ConsoleApplication1/ConsoleApplication1.cpp:140-154 | A left rotation keeps the in-order keys, the set of node slots, the size and the distinctness of slots. |
| RbShapes.RotRCongruent | C-StatistickTree/ConsoleApplication1/ConsoleApplication1.cpp:157-171 | The same for a right rotation. |
| RbShapes.InsertPlace | C-StatistickTree/ConsoleApplication1/ConsoleApplication1.cpp:74-91 | A new leaf put in the empty slot reached by the descent is placed after every key not greater than it and before every greater key. So the keys stay sorted and gain exactly one occurrence of the new key. |
| RbShapes.SearchLeft | C-StatistickTree/ConsoleApplication1/ConsoleApplication1.cpp:177-178 | In a sorted subtree, a key less than the root's key is present in the subtree if and only if it is present in the left subtree. |
| RbShapes.SearchRight | C-StatistickTree/ConsoleApplication1/ConsoleApplication1.cpp:179-180 | A key greater than the root's key is present if and only if it is present in the right subtree. |
| RbShapes.MinNode | C-StatistickTree/ConsoleApplication1/ConsoleApplication1.cpp:300-304 | The node reached by left links has no left child. |
| RbShapes.MinSpine | C-StatistickTree/ConsoleApplication1/ConsoleApplication1.cpp:300-304 | The leftmost node holds the first key of its subtree. It is reached by left steps only, it lies in the subtree, and it is the subtree's root exactly when that root has no left child. |
| RbShapes.MinSplit | C-StatistickTree/ConsoleApplication1/ConsoleApplication1.cpp:203-211 | The subtree without its leftmost node Y, with Y's right child in Y's place, holds the remaining keys in order and no repeated slot. |
| RbShapes.ChildSplice | C-StatistickTree/ConsoleApplication1/ConsoleApplication1.cpp:194-201 | Replacing a node that has at most one child by that child keeps every other key in order. It drops exactly that node's slot and keeps slots distinct. |
| RbShapes.DeleteKey | C-StatistickTree/ConsoleApplication1/ConsoleApplication1.cpp:190-220 | Dropping one key from the middle of a sorted sequence leaves it sorted and removes exactly one occurrence. |
| RbShapes.DeleteAt | C-StatistickTree/ConsoleApplication1/ConsoleApplication1.cpp:190-220 | Deleting the node at a path of a sorted tree leaves the other keys sorted, and their multiset is the old one minus that node's key. |
| RbFixups.InsertStart | C-StatistickTree/ConsoleApplication1/ConsoleApplication1.cpp:83-93 | A red leaf added to a red-black tree satisfies the insert-fixup invariant: the only possible violation is a red-red edge between it and its parent. |
| RbFixups.InsertParentRed | C-StatistickTree/ConsoleApplication1/ConsoleApplication1.cpp:98-100 | When the parent is red, a grandparent exists and is black, so the source's `z->parent->parent` exists. |
| RbFixups.InsertRecolor | C-StatistickTree/ConsoleApplication1/ConsoleApplication1.cpp:101-105 | Red uncle: recolouring parent, uncle and grandparent moves the invariant two levels up and keeps keys and slots. |
| RbFixups.InsertInnerLeft | C-StatistickTree/ConsoleApplication1/ConsoleApplication1.cpp:108-111 | Black uncle with z an inner right child: a left rotation at the parent keeps the invariant and makes z an outer child. |
| RbFixups.InsertInnerRight | C-StatistickTree/ConsoleApplication1/ConsoleApplication1.cpp:126-129 | The mirror image of InsertInnerLeft. |
| RbFixups.InsertOuterLeft | C-StatistickTree/ConsoleApplication1/ConsoleApplication1.cpp:112-114 | Black uncle with z an outer left child: recolouring and a right rotation at the grandparent remove the red-red edge. |
| RbFixups.InsertOuterRight | C-StatistickTree/ConsoleApplication1/ConsoleApplication1.cpp:130-132 | The mirror image of InsertOuterLeft. |
| RbFixups.InsertFinish | C-StatistickTree/ConsoleApplication1/ConsoleApplication1.cpp:136 | Once the loop stops, painting the root black gives a red-black tree with the same keys. |
| RbFixups.SpliceOut | C-StatistickTree/ConsoleApplication1/ConsoleApplication1.cpp:193-219 | Splicing out a node with at most one child: a red node leaves a red-black tree. A black node leaves the delete-fixup invariant at the child, which is one black node short. |
| RbFixups.SuccessorSplice | C-StatistickTree/ConsoleApplication1/ConsoleApplication1.cpp:202-216 | Moving the successor into the removed node's place is splicing the successor out at its own position. The keys are the old ones without the removed key, in order. |
| RbFixups.SuccessorKeys | C-StatistickTree/ConsoleApplication1/ConsoleApplication1.cpp:213-216 | The successor's key in place of the removed node's key drops exactly the removed key. |
| RbFixups.SuccessorDistinct | C-StatistickTree/ConsoleApplication1/ConsoleApplication1.cpp:208-216 | The successor, cut from the right subtree and put above the rest of it, keeps the slots distinct. |
| RbFixups.DelSibling | C-StatistickTree/ConsoleApplication1/ConsoleApplication1.cpp:227 | A deficient node that is not the root has a sibling, so `w` exists. |
| RbFixups.DelRedSiblingLeft | C-StatistickTree/ConsoleApplication1/ConsoleApplication1.cpp:228-233 | Case 1, red sibling: recolouring and a left rotation at the parent keep the invariant one level deeper, with a black sibling and a red parent. |
| RbFixups.DelRedSiblingRight | C-StatistickTree/ConsoleApplication1/ConsoleApplication1.cpp:256-261 | The mirror image of DelRedSiblingLeft. |
| RbFixups.DelPushUp | C-StatistickTree/ConsoleApplication1/ConsoleApplication1.cpp:234-237 | Case 2, black sibling with black children: after painting the sibling red, the deficiency is at the parent, which is one level higher. |
| RbFixups.DelNearNephewLeft | C-StatistickTree/ConsoleApplication1/ConsoleApplication1.cpp:239-245 | Case 3: recolouring and a right rotation at the sibling keep the invariant and make the far nephew red. |
| RbFixups.DelNearNephewRight | C-StatistickTree/ConsoleApplication1/ConsoleApplication1.cpp:267-273 | The mirror image of DelNearNephewLeft. |
| RbFixups.DelFarNephewLeft | C-StatistickTree/ConsoleApplication1/ConsoleApplication1.cpp:246-251 | Case 4: recolouring and a left rotation at the parent remove the deficiency. The invariant now holds at the root with the same keys, and DelFinish's painting of the root makes the tree red-black. |
| RbFixups.DelFarNephewRight | C-StatistickTree/ConsoleApplication1/ConsoleApplication1.cpp:274-279 | The mirror image of DelFarNephewLeft. |
| RbFixups.DelFinish | C-StatistickTree/ConsoleApplication1/ConsoleApplication1.cpp:283-284 | Once the loop stops (x is the root or red), painting x black gives a red-black tree with the same keys. |
| Arena.RotateLeftStored | C-StatistickTree/ConsoleApplication1/ConsoleApplication1.cpp:140-154 | The six pointer writes of rotateLeft turn the stored tree into its left rotation. Only the slots of x, y, y's left child and x's parent change. |
| Arena.RotateRightStored | C-StatistickTree/ConsoleApplication1/ConsoleApplication1.cpp:157-171 | The same for rotateRight. |
| Arena.TransplantStored | C-StatistickTree/ConsoleApplication1/ConsoleApplication1.cpp:288-297 | The writes of transplant hang v's subtree where u hung. |
| Arena.AttachStored | C-StatistickTree/ConsoleApplication1/ConsoleApplication1.cpp:68-91 | Appending the new node and linking it from the parent found by the descent stores the tree with the new leaf in the empty slot. |
| Arena.SuccessorSlots | C-StatistickTree/ConsoleApplication1/ConsoleApplication1.cpp:203-206 | The successor found by minimum has no left child, and its parent is the removed node exactly when it is that node's right child. |
| OrderStatistics.RedBlackTree.constructor | C-StatistickTree/ConsoleApplication1/ConsoleApplication1.cpp:52-54 | The new tree is empty and valid. |
| OrderStatistics.RedBlackTree.RotateLeft | C-StatistickTree/ConsoleApplication1/ConsoleApplication1.cpp:140-154 | The slots now store the left rotation of the subtree at x. Only four slots change. |
| OrderStatistics.RedBlackTree.RotateRight | C-StatistickTree/ConsoleApplication1/ConsoleApplication1.cpp:157-171 | The slots now store the right rotation of the subtree at x. |
| OrderStatistics.RedBlackTree.Insert | C-StatistickTree/ConsoleApplication1/ConsoleApplication1.cpp:67-94 | Keeps the tree valid (sorted and red-black) and adds exactly one occurrence of the key to the contents. |
| OrderStatistics.RedBlackTree.FixInsertion | C-StatistickTree/ConsoleApplication1/ConsoleApplication1.cpp:97-137 | From the state after attaching a red leaf, restores every red-black invariant and keeps the keys and slots. |
| OrderStatistics.RedBlackTree.RecolorUncle | C-StatistickTree/ConsoleApplication1/ConsoleApplication1.cpp:101-105 | The red-uncle recolouring keeps the fixup state and moves it strictly up. |
| OrderStatistics.RedBlackTree.RotateInnerLeft | C-StatistickTree/ConsoleApplication1/ConsoleApplication1.cpp:108-111 | The inner-child rotation keeps the fixup state at the same depth, now with z the left child of a red left child. |
| OrderStatistics.RedBlackTree.RotateInnerRight | C-StatistickTree/ConsoleApplication1/ConsoleApplication1.cpp:126-129 | The mirror image of RotateInnerLeft. |
| OrderStatistics.RedBlackTree.RotateOuterLeft | C-StatistickTree/ConsoleApplication1/ConsoleApplication1.cpp:112-114 | Recolouring and rotating at the grandparent keeps the fixup state at a strictly smaller depth, with the same keys and slots. |
| OrderStatistics.RedBlackTree.RotateOuterRight | C-StatistickTree/ConsoleApplication1/ConsoleApplication1.cpp:130-132 | The mirror image of RotateOuterLeft. |
| OrderStatistics.RedBlackTree.Transplant | C-StatistickTree/ConsoleApplication1/ConsoleApplication1.cpp:288-297 | v's subtree is linked where u was, and only u's parent and v change. |
| OrderStatistics.RedBlackTree.Minimum | C-StatistickTree/ConsoleApplication1/ConsoleApplication1.cpp:300-304 | Returns the leftmost node of the subtree. |
| OrderStatistics.RedBlackTree.CountNodes | C-StatistickTree/ConsoleApplication1/ConsoleApplication1.cpp:312 | The number of nodes of a stored subtree, which equals the number of its keys. |
| OrderStatistics.RedBlackTree.FindKth | C-StatistickTree/ConsoleApplication1/ConsoleApplication1.cpp:307-324 | For 1 <= k <= size it returns the k-th key in order. Otherwise it returns 0/1. |
| OrderStatistics.RedBlackTree.Remove | C-StatistickTree/ConsoleApplication1/ConsoleApplication1.cpp:174-187 | An absent key leaves slots, root and tree unchanged. A present key loses exactly one occurrence, and the tree stays valid. |
| OrderStatistics.RedBlackTree.DeleteNode | C-StatistickTree/ConsoleApplication1/ConsoleApplication1.cpp:190-221 | Removing the node at a path leaves a valid tree whose contents are the other keys in their order. |
| OrderStatistics.RedBlackTree.ReplaceByChild | C-StatistickTree/ConsoleApplication1/ConsoleApplication1.cpp:194-201 | The only child takes the node's place. A black node leaves the delete-fixup invariant; a red one leaves a red-black tree. |
| OrderStatistics.RedBlackTree.SpliceSuccessor | C-StatistickTree/ConsoleApplication1/ConsoleApplication1.cpp:202-217 | The successor takes the node's place and colour. The tree keeps the other keys in order, and the successor's original colour decides whether the delete-fixup invariant or red-black holds. |
| OrderStatistics.RedBlackTree.DetachSuccessor | C-StatistickTree/ConsoleApplication1/ConsoleApplication1.cpp:208-212 | A successor deeper than the right child is replaced by its right child and takes over the right subtree. |
| OrderStatistics.RedBlackTree.ReplaceWithSuccessor | C-StatistickTree/ConsoleApplication1/ConsoleApplication1.cpp:213-216 | The successor is linked in the node's place, with its left subtree and colour. |
| OrderStatistics.RedBlackTree.FixDeletion | C-StatistickTree/ConsoleApplication1/ConsoleApplication1.cpp:224-285 | From the state after splicing out a black node, restores every red-black invariant and keeps the keys and slots. |
| OrderStatistics.RedBlackTree.FixLeftChild | C-StatistickTree/ConsoleApplication1/ConsoleApplication1.cpp:226-253 | One round for x a left child keeps the fixup state and strictly decreases the loop measure. |
| OrderStatistics.RedBlackTree.FixRightChild | C-StatistickTree/ConsoleApplication1/ConsoleApplication1.cpp:254-281 | The same for x a right child. |
| OrderStatistics.RedBlackTree.DeletePushUp | C-StatistickTree/ConsoleApplication1/ConsoleApplication1.cpp:234-237 | Painting the sibling red moves the deficiency to the parent. |
| Scenario.BuildTree | C-StatistickTree/ConsoleApplication1/ConsoleApplication1.cpp:328-335 | The loop of the test program yields a valid tree holding the reduced forms of the inputs. |
| Scenario.InputsReduced | C-StatistickTree/ConsoleApplication1/ConsoleApplication1.cpp:329 | The six inputs are already in lowest terms. |
| Scenario.SortedUnique | C-StatistickTree/ConsoleApplication1/ConsoleApplication1.cpp:337-346 | Two sorted sequences with the same multiset of keys are equal, which fixes the contents of the tree. |
| Scenario.ThirdOfInputs | C-StatistickTree/ConsoleApplication1/ConsoleApplication1.cpp:337-339 | Any sorted arrangement of the inputs is 1/2, 2/1, 3/2, 4/1, 5/2, 7/3, so its third key is 3/2. |
| Scenario.ThirdAfterRemoval | C-StatistickTree/ConsoleApplication1/ConsoleApplication1.cpp:341-346 | Without 3/2 the sorted keys are 1/2, 2/1, 4/1, 5/2, 7/3, so the third key is 4/1. |
| Scenario.DemoScenario | C-StatistickTree/ConsoleApplication1/ConsoleApplication1.cpp:327-349 | With the repaired rank query `FindKth`, the test program's two queries answer 3/2 and then 4/1. The program as written prints 5/2 twice (see Findings). |
| Findings.FindKthAsWritten | C-StatistickTree/ConsoleApplication1/ConsoleApplication1.cpp:307-324 | findKth as written returns a key of the tree or 0/1. |
| Findings.FindKthAsWrittenMisranks | C-StatistickTree/ConsoleApplication1/ConsoleApplication1.cpp:307-324 | On the tree the six inserts build, findKth as written answers 5/2 for rank 3, where the third key is 3/2. It answers 3/2 for rank 1, where the first key is 1/2. |
| Findings.FindKthAsWrittenMisranksAfterRemoval | C-StatistickTree/ConsoleApplication1/ConsoleApplication1.cpp:307-324 | After removing 3/2 it answers 5/2 for rank 3, where the third key is 4/1. |
| Findings.SuccessorRelinkAsWritten | C-StatistickTree/ConsoleApplication1/ConsoleApplication1.cpp:202-212 | The two-children branch of deleteNode as written, with y found by minimum and the `y->parent == z` test taken on y's path. When z's right child has no left child, the first parent write goes through null exactly when that child has no right child. |
| Findings.SuccessorRelinkNull | C-StatistickTree/ConsoleApplication1/ConsoleApplication1.cpp:202-212 | For every node with two children in a tree without repeated slots, the branch writes `x->parent` through null exactly when z's right child has no children. |
| Findings.DirectSuccessorDereferencesNull | C-StatistickTree/ConsoleApplication1/ConsoleApplication1.cpp:205-207 | Inserting 3/2, 1/2, 5/2 and removing 3/2 reaches that null write. |
| Findings.SpliceEntryAsWritten | C-StatistickTree/ConsoleApplication1/ConsoleApplication1.cpp:190-225 | deleteNode with at most one child, then the loop test of fixDeletion on the root after the transplant. At the root nothing is read. |
| Findings.SpliceEntryNull | C-StatistickTree/ConsoleApplication1/ConsoleApplication1.cpp:218-226 | For every node with at most one child in a tree with distinct, real slots, fixDeletion reads `x->parent` through null exactly when a black node with no children below the root is removed. This covers only the one-child entry of deleteNode; the same read is also reached from the two-children branch when the successor is black, has no right child and is not z's own child. |
| Findings.BlackLeafRemovalDereferencesNull | C-StatistickTree/ConsoleApplication1/ConsoleApplication1.cpp:218-226 | Inserting 3/2, 1/2, 5/2, 2/1 and removing 5/2 reaches that null dereference. |
| OrderStatistics.RedBlackTree.SetColor | C-StatistickTree/ConsoleApplication1/ConsoleApplication1.cpp:101-103 | Writing a node's colour field repaints exactly that node of the stored tree; no other slot changes. |
| OrderStatistics.RedBlackTree.DeleteRedSiblingLeft | C-StatistickTree/ConsoleApplication1/ConsoleApplication1.cpp:228-233 | Case 1 for a left child: the fixup state holds one level deeper with a red parent and a black sibling, and keys and slots are kept. |
| OrderStatistics.RedBlackTree.DeleteRedSiblingRight | C-StatistickTree/ConsoleApplication1/ConsoleApplication1.cpp:256-261 | The mirror image of DeleteRedSiblingLeft. |
| OrderStatistics.RedBlackTree.DeleteNearNephewLeft | C-StatistickTree/ConsoleApplication1/ConsoleApplication1.cpp:239-245 | Case 3 for a left child: the fixup state is kept at the same depth, now with a black sibling whose far child is red. |
| OrderStatistics.RedBlackTree.DeleteNearNephewRight | C-StatistickTree/ConsoleApplication1/ConsoleApplication1.cpp:267-273 | The mirror image of DeleteNearNephewLeft. |
| OrderStatistics.RedBlackTree.DeleteFarNephewLeft | C-StatistickTree/ConsoleApplication1/ConsoleApplication1.cpp:246-251 | Case 4 for a left child: the deficiency is gone and x is the root, with keys and slots kept. |
| OrderStatistics.RedBlackTree.DeleteFarNephewRight | C-StatistickTree/ConsoleApplication1/ConsoleApplication1.cpp:274-279 | The mirror image of DeleteFarNephewLeft. |
| Rationals.Less | C-StatistickTree/ConsoleApplication1/ConsoleApplication1.cpp:79 | The key comparison: numerator first, then denominator. |
| Rationals.GcdBasics | C-StatistickTree/ConsoleApplication1/ConsoleApplication1.cpp:11-18 | gcd(a, 0) is a, and the gcd is positive when an operand is. |
| Arena.CutTree | C-StatistickTree/ConsoleApplication1/ConsoleApplication1.cpp:208 | Linking the successor's parent to the successor's right child stores z's right subtree without the successor. |
| Arena.CutStored | C-StatistickTree/ConsoleApplication1/ConsoleApplication1.cpp:208 | After that cut the successor's own slot is unchanged and z's right link names the cut subtree's root. |
| Arena.DetachStored | C-StatistickTree/ConsoleApplication1/ConsoleApplication1.cpp:209-210 | Hanging z's right subtree under the successor stores the tree in which the successor can replace z. |

## Left out

- Console output is not modelled: the messages of `main` and the "not found" message of `remove`. `Remove` on an absent key leaves the tree unchanged instead.
- `new` and `delete` are not modelled. A node is a slot appended to `nodes`, and a removed node's slot stays, unreachable from the root.
- The `int` width is not modelled. Keys and the rank argument are unbounded integers; the inputs used are small.
- Simplify: requires a non-negative numerator and a positive denominator.
  - With a negative operand the C++ `%` truncates toward zero, and the gcd loop may return a negative divisor.
  - Those inputs, and a 0/0 fraction, are not modelled.
- FindKth: it is the corrected rank query, not the code as written. The code as written is `Findings.FindKthAsWritten`.
- No per-node subtree size is kept, because the code keeps none. `CountNodes` counts a subtree on demand instead.
- The `x->parent = y` write at line 207 and the `x->parent` reads in fixDeletion are replaced by a guard (`if x != NIL`) and by a separately tracked parent slot `xParent`, so that they do not dereference null.
- Some source functions are split into several methods: fixInsertion into one method per case, fixDeletion into one method per side and per case, and deleteNode into its one-child and two-children cases. The statements are the source's; the split keeps each proof small.

## Findings

| source | as written | input that shows it | evidently intended | confidence | as-written member | corrected member |
|---|---|---|---|---|---|---|
| C-StatistickTree/ConsoleApplication1/ConsoleApplication1.cpp:307-324 | findKth returns the current node whenever k is 1, and counts a left subtree as one node whatever its size | insert 3/2, 1/2, 5/2, 2/1, 7/3, 4/1; findKth(3) answers 5/2. After remove(3/2), findKth(3) answers 5/2 again | the k-th key in order: 3/2, then 4/1 (the comment at line 337 names 3/2) | not executed | Findings.FindKthAsWrittenMisranks | OrderStatistics.RedBlackTree.FindKth |
| C-StatistickTree/ConsoleApplication1/ConsoleApplication1.cpp:206-207 | when the successor y is z's right child, `x->parent = y` runs with x = y's right child, which may be null | insert 3/2, 1/2, 5/2; remove(3/2): the successor 5/2 has no right child | skip the write when x is null, and remember y as x's parent | not executed | Findings.SuccessorRelinkNull | OrderStatistics.RedBlackTree.SpliceSuccessor |
| C-StatistickTree/ConsoleApplication1/ConsoleApplication1.cpp:218-226 | fixDeletion(x) with x null enters the loop and reads `x->parent`. The as-written member covers the one-child entry of deleteNode only; the two-children branch reaches the same read when the successor is black, has no right child and is not z's own child | insert 3/2, 1/2, 5/2, 2/1; remove(5/2) removes a black leaf below the root | track x's parent separately, since x may be absent | not executed | Findings.SpliceEntryNull | OrderStatistics.RedBlackTree.FixDeletion |

# Red-black tree, modelled in Dafny

This project models `algorithm::RedBlackTree<T>` and its node class
`RedBlackTreeNode<T>` from `red_black_tree/red_black_tree.h`, with `T`
instantiated as `int`. The tree is a textbook red-black tree. Each node has
`left`, `right` and `parent` pointers, a colour and a key. Keys may repeat.
A few points about how this implementation works:

- **Rotation moves contents, not nodes.** `rotate` swaps the key and colour
  of a node and its pivot. It then rearranges the child pointers. The node
  at the top of the rotated subtree therefore keeps its place in its parent.
- **Ties go right.** Insertion descends left iff the new key is smaller, so
  equal keys go right.
- **Deletion uses a placeholder.** When the removed node has no child,
  `substitute` splices in a temporary black placeholder node. `del_fixup`
  walks up from it, and afterwards the placeholder is unlinked again.

## How the model is built

- **Heap as an arena.** The heap of nodes is a map `nodes: map<nat, NodeRec>`
  from node ids to records. Each record holds the node's fields (`left`,
  `right`, `parent`, `color`, `val`). A pointer is `Ptr = Null | Ref(id)`.
  The class `RedBlackTrees.RedBlackTree` holds `nodes`, the `root` pointer
  and `next`, the id that the next `new` hands out.
- **Abstract tree.** A ghost field `tree` holds the abstract tree, a
  datatype `Tree = Nil | Node(id, color, left, key, right)`.
  `Arena.Linked` ties the two together: every node of `tree` is stored
  under its id with exactly the links, colour and key the tree gives it,
  and `Distinct` says no id occurs twice. `Wf()` is this link plus root
  consistency plus freshness of `next`.
- **Red-black invariants.** `Valid()` adds the invariants on the abstract
  tree, stated in full:
  - black root;
  - no red node with a red child;
  - equal black counts on every path;
  - in-order keys non-decreasing.
- **Zippers for the fixup loops.** The loops in `insert_fixup` and
  `del_fixup` look at one node and walk upwards. They are modelled with a
  zipper: a focus subtree and the list of its ancestors' frames
  (`Zippers.Plug`). Each case of a loop is a function on the zipper with a
  lemma that the loop invariant is preserved (module `InsertCases` or
  `DeleteCases`). The imperative method in `RedBlackTrees` performs the
  same pointer updates on the arena, and its `ensures` ties the new arena
  to that function.
- **The placeholder.** It is an ordinary black node allocated with id
  `next`. The properties of the tree during and after `del_fixup` are
  stated about `Strip(tree, ph)`, the tree with the placeholder removed.

Modules:

- `Trees`: the abstract tree, its invariants, and rotation on trees.
- `Zippers`: frames, `Plug`, and how keys, ids, balance and colours
  decompose along a path.
- `Arena`: pointers and records, `Linked`, and navigation lemmas (`Nav`,
  `NavParent`, `NavBrother`) that say what `branch()`, `brother()` and
  `color_of` read on a linked arena.
- `Queries`: the read-only node functions `search`, `min`, `max`,
  `black_height` and `tranverse`.
- `InsertCases`, `DeleteCases`: the abstract steps of insertion and
  deletion and their invariants.
- `RedBlackTrees`: the class and the imperative operations.

## Model

| member | source | states |
|---|---|---|
| RedBlackTrees.NewNode | red_black_tree/red_black_tree.h:24-26 | a new node has no children, the given parent and key, and is black exactly when it has no parent |
| Arena.ColorOf | red_black_tree/red_black_tree.h:48-53 | an absent node counts as black |
| Arena.ColorOfLinked | red_black_tree/red_black_tree.h:48-53 | on a linked arena, color_of of a subtree's pointer is the colour of that abstract subtree |
| Trees.ReverseBranch | red_black_tree/red_black_tree.h:59-61 | reverse_branch never returns its argument and maps left to right and right to left, so it is an involution |
| Arena.Brother | red_black_tree/red_black_tree.h:63-70 | brother() of the root is null |
| Arena.Nav | red_black_tree/red_black_tree.h:55-70 | at a focus in a linked tree: the node's record matches the abstract node, branch() is the slot its parent frame records, and brother() is that frame's other subtree (null at the root) |
| Arena.NavBrother | red_black_tree/red_black_tree.h:247-258 | what del_fixup reads: the brother exists and is the frame's sibling, and the colours of the brother and its two children are those of the abstract sibling |
| Arena.NavParent | red_black_tree/red_black_tree.h:144-147 | what insert_fixup reads: the colour of the parent (black at the root) and, when there is a grandparent, the colour of the parent's brother |
| RedBlackTrees.RedBlackTree.LeafInsert | red_black_tree/red_black_tree.h:31-38 | leaf_insert into an empty slot adds exactly one fresh red node with the key there, and no other record changes except the parent's child slot |
| RedBlackTrees.LeafLinked | red_black_tree/red_black_tree.h:31-38 | after the new leaf is attached, the arena links the abstract tree with that leaf in the slot, and ids stay distinct |
| Trees.RotateTree | red_black_tree/red_black_tree.h:72-96 | rotate on trees: the node keeps its id at the top of the subtree |
| Trees.RotateShape | red_black_tree/red_black_tree.h:72-96 | the shape of rotate(b) for either direction: the pivot's contents rise, the old top moves down on side b with its near subtree and the pivot's inner subtree |
| Trees.RotatePreserves | red_black_tree/red_black_tree.h:72-96 | rotation keeps the in-order sequence of (key, colour) pairs, hence the keys, keeps the set of ids and keeps ids distinct |
| RedBlackTrees.SwapAndRelink | red_black_tree/red_black_tree.h:87-95 | the swaps of rotate: the two nodes exchange key and colour and their child slots are rearranged as the swaps say |
| RedBlackTrees.RotateSteps | red_black_tree/red_black_tree.h:72-96 | the parent updates of the moved subtrees followed by the swaps leave the arena linking the rotated tree, under the same parent; records outside the subtree are unchanged |
| RedBlackTrees.RotateNodes | red_black_tree/red_black_tree.h:72-96 | rotate on the arena, which requires the pivot to exist: the arena links the rotated tree with the same parent pointer, and no record outside the subtree changes |
| RedBlackTrees.RedBlackTree.Rotate | red_black_tree/red_black_tree.h:72-96 | rotate inside the whole tree: the tree becomes the same path with the rotated focus; root, keys and ids are unchanged |
| Queries.OrderedSplit | red_black_tree/red_black_tree.h:102-117 | in an ordered tree, keys on the left are at most the node's key and keys on the right at least it |
| Queries.SearchFrom | red_black_tree/red_black_tree.h:102-109 | search returns only nodes of the subtree that hold the key; on an ordered subtree it returns a node iff the key occurs |
| RedBlackTrees.RedBlackTree.Search | red_black_tree/red_black_tree.h:328 | tree-level search on a non-empty tree: a returned node holds the key, and on an ordered tree a node is returned iff the key is in the tree |
| Trees.Leftmost | red_black_tree/red_black_tree.h:111-117 | the leftmost node has no left child and holds the first in-order key |
| Queries.MinFrom | red_black_tree/red_black_tree.h:111-117 | min returns the leftmost node, which has no left child and holds the first in-order key, a smallest key when the subtree is ordered |
| Queries.MaxAsWritten | red_black_tree/red_black_tree.h:119-125 | max as written: the node itself without a right child, else the leftmost node of the right subtree |
| Queries.MaxAsWrittenMissesMax | red_black_tree/red_black_tree.h:119-125 | on a valid red-black tree with keys 1, 2, 3, 4, max as written returns the node holding 3 |
| Queries.MaxFrom | red_black_tree/red_black_tree.h:119-125 | max as intended: the node has no right child and holds the last in-order key, a largest key when the subtree is ordered |
| InsertCases.InsertBranch | red_black_tree/red_black_tree.h:130 | insertion goes left iff the new key is smaller than the node's, so ties go right |
| InsertCases.BstInsert | red_black_tree/red_black_tree.h:127-140 | the descent of insert adds exactly one new node id, keeps the top node, and keeps black heights |
| InsertCases.InsertSortedAt | red_black_tree/red_black_tree.h:127-140 | the key lands after every key at most it and before the first larger key |
| InsertCases.InsertSortedKeeps | red_black_tree/red_black_tree.h:127-140 | inserting into the key sequence adds exactly one copy of the key and keeps it sorted |
| InsertCases.BstInsertKeys | red_black_tree/red_black_tree.h:127-140 | on an ordered tree, the descent inserts the key into the in-order sequence at its sorted place: the keys stay ordered and the multiset grows by the key |
| InsertCases.DescendStep | red_black_tree/red_black_tree.h:136-138 | one step of the descent loop moves the focus to the chosen child without changing the whole tree or what the insertion produces |
| InsertCases.LeafInsInv | red_black_tree/red_black_tree.h:132-134 | attaching the red leaf at the empty slot gives the tree the descent describes and establishes the insert_fixup loop invariant |
| RedBlackTrees.RedBlackTree.NodeInsert | red_black_tree/red_black_tree.h:127-140 | insert from the root: the keys become those of the abstract insertion, one fresh node id is added, and after insert_fixup no red node has a red child and the tree is balanced |
| InsertCases.InsParentRed | red_black_tree/red_black_tree.h:144-146 | when the parent is red, a grandparent exists and is black, and the uncle and sibling subtrees have the right black height |
| InsertCases.RecolorCaseInv | red_black_tree/red_black_tree.h:147-151 | the recolouring case keeps the loop invariant and the keys, moving the focus to the grandparent |
| RedBlackTrees.RedBlackTree.InsertRecolor | red_black_tree/red_black_tree.h:147-151 | the recolouring case on the arena produces exactly the abstract recolouring step |
| InsertCases.RotateCaseInv | red_black_tree/red_black_tree.h:152-159 | the rotation case (with the inner rotation when needed) keeps the loop invariant and leaves a black parent, so the loop ends |
| RedBlackTrees.RedBlackTree.InsertRotate | red_black_tree/red_black_tree.h:152-159 | the rotation case on the arena produces exactly the abstract rotation step; keys and ids are unchanged |
| InsertCases.InsDone | red_black_tree/red_black_tree.h:144 | when the loop stops (black parent or root), no red node has a red child and the tree is balanced |
| RedBlackTrees.RedBlackTree.InsertFixup | red_black_tree/red_black_tree.h:142-161 | insert_fixup terminates with no red node with a red child and the tree balanced, and keys and ids unchanged |
| RedBlackTrees.RedBlackTree.Insert | red_black_tree/red_black_tree.h:304-311 | tree-level insert keeps the red-black invariants with a black root, puts the key at its sorted place in the in-order keys, and grows the key multiset by exactly that key |
| Queries.Tranverse | red_black_tree/red_black_tree.h:167-186 | the visitor calls of tranverse: a false pre-order result ends the node's visit, with no call on its subtrees; a false in-order result makes the in-order visit the last call, and the calls are only on the node and its left subtree, so nothing in the right subtree is visited; otherwise it ends with the post-order visit; only nodes of the subtree are visited |
| Queries.TranverseInOrder | red_black_tree/red_black_tree.h:167-186 | with visitors that never stop, every node is visited three times and the in-order visits list the nodes in in-order |
| Queries.LinkedInOrder | red_black_tree/red_black_tree.h:319-326 | the values of the nodes in in-order are the tree's keys |
| RedBlackTrees.RedBlackTree.Tranverse | red_black_tree/red_black_tree.h:319-326 | tree-level tranverse does nothing on an empty tree, starts with the root's value otherwise, and with visitors that never stop hands the keys in order to the in-order visitor |
| Queries.BlackHeightFrom | red_black_tree/red_black_tree.h:188-198 | black_height counts the black nodes down the left children, the node included |
| Queries.BalancedPaths | red_black_tree/red_black_tree.h:188-198 | in a balanced tree every path to an absent child has that same black count |
| RedBlackTrees.RedBlackTree.BlackHeight | red_black_tree/red_black_tree.h:289 | the tree-level black height is -1 for an empty tree and the root's black height otherwise |
| RedBlackTrees.RedBlackTree.Empty | red_black_tree/red_black_tree.h:287 | empty() holds iff the tree has no node |
| RedBlackTrees.RedBlackTree.constructor | red_black_tree/red_black_tree.h:276 | a new tree is empty and valid |
| RedBlackTrees.RedBlackTree.SetColor | red_black_tree/red_black_tree.h:270 | painting one node changes only that record's colour and the abstract node's colour |
| RedBlackTrees.RedBlackTree.SetVal | red_black_tree/red_black_tree.h:299 | writing one node's key changes only that record's key and the abstract node's key |
| DeleteCases.Survivor | red_black_tree/red_black_tree.h:295-296 | the child that replaces a node with at most one child: its keys are the node's two subtrees' keys and it does not contain the node |
| DeleteCases.SurvivorProps | red_black_tree/red_black_tree.h:295-296 | in a valid tree, the survivor of a node with at most one child has black height 0 and is balanced |
| DeleteCases.SubstituteKeys | red_black_tree/red_black_tree.h:295-296 | replacing a node with at most one child by its survivor removes exactly that node's key from the in-order keys |
| RedBlackTrees.RedBlackTree.SpliceIn | red_black_tree/red_black_tree.h:209-227 | substitute's first half: the survivor, or a fresh black placeholder when there is none, takes the old node's place under its parent or as the root |
| RedBlackTrees.RedBlackTree.Hook | red_black_tree/red_black_tree.h:219-227 | hooking the new subtree in at the root or at the old node's slot in the parent links the plugged tree and changes only that slot |
| DeleteCases.SubstituteStart | red_black_tree/red_black_tree.h:228-230 | removing a red node keeps the invariants; removing a black one establishes the del_fixup loop invariant at the survivor or placeholder |
| DeleteCases.DelBrother | red_black_tree/red_black_tree.h:246-253 | inside the del_fixup loop, the focus has a brother, which is balanced with one more black node than the focus |
| DeleteCases.RedBrotherCaseInv | red_black_tree/red_black_tree.h:247-251 | the red-brother case keeps the loop invariant and the keys, and leaves a black brother |
| RedBlackTrees.RedBlackTree.DelRedBrother | red_black_tree/red_black_tree.h:247-251 | the red-brother case on the arena produces exactly the abstract step |
| DeleteCases.BlackBrotherCaseInv | red_black_tree/red_black_tree.h:252-255 | the black-nephews case keeps the loop invariant and the keys, and decreases the loop measure as the focus moves up |
| RedBlackTrees.RedBlackTree.DelBlackBrother | red_black_tree/red_black_tree.h:252-255 | the black-nephews case on the arena produces exactly the abstract step |
| DeleteCases.NearRedCaseInv | red_black_tree/red_black_tree.h:257-262 | the near-red-nephew case keeps the loop invariant and the keys, and makes the far nephew red |
| RedBlackTrees.RedBlackTree.DelNearRed | red_black_tree/red_black_tree.h:257-262 | the near-red-nephew case on the arena produces exactly the abstract step |
| DeleteCases.FarRedTopProps | red_black_tree/red_black_tree.h:263-266 | the far-red-nephew case turns the parent's subtree into a repaired subtree of the same colour, with one more black node on the focus side and the same keys |
| DeleteCases.FarRedCaseInv | red_black_tree/red_black_tree.h:263-267 | after the far-red-nephew case the whole tree, without the placeholder, is repaired with a black root and the same keys, and the focus is the root |
| RedBlackTrees.RedBlackTree.DelFarRed | red_black_tree/red_black_tree.h:263-267 | the far-red-nephew case on the arena produces exactly the abstract step |
| RedBlackTrees.RedBlackTree.DelRedNephew | red_black_tree/red_black_tree.h:256-268 | the red-nephew branch ends with the focus at the root and the tree repaired with the same keys |
| RedBlackTrees.RedBlackTree.DelBlackSide | red_black_tree/red_black_tree.h:252-268 | with a black brother, one loop iteration keeps the invariant and the keys and either ends at the root or moves up one level |
| RedBlackTrees.RedBlackTree.DelFixupStep | red_black_tree/red_black_tree.h:246-268 | one iteration of the del_fixup loop keeps the invariant and the keys and decreases the loop measure |
| DeleteCases.DelDone | red_black_tree/red_black_tree.h:270 | when the loop stops (red focus or root), painting the focus black gives a tree without the placeholder that satisfies the invariants with a black root and the same keys |
| RedBlackTrees.RedBlackTree.DelFixup | red_black_tree/red_black_tree.h:245-271 | del_fixup terminates, and the tree without the placeholder has no red node with a red child, is balanced, has a black root and has the same keys |
| RedBlackTrees.RedBlackTree.RemovePlaceholder | red_black_tree/red_black_tree.h:232-240 | unlinking the placeholder (clearing the root or its parent's slot) leaves the arena linking the tree without it |
| RedBlackTrees.RedBlackTree.Unhook | red_black_tree/red_black_tree.h:232-240 | after substitute, no placeholder remains in the tree |
| RedBlackTrees.RedBlackTree.Substitute | red_black_tree/red_black_tree.h:209-243 | substitute keeps the red-black invariants with a black root, leaves exactly the keys of the tree with the old node replaced by its survivor, and drops the old node |
| DeleteCases.RemoveAtProps | red_black_tree/red_black_tree.h:291-302 | removing one position from the key sequence takes exactly that key out of the multiset and keeps the sequence sorted |
| DeleteCases.KeyIndex | red_black_tree/red_black_tree.h:291-302 | the in-order position of a node holds that node's key |
| DeleteCases.MinPlug | red_black_tree/red_black_tree.h:298 | the path to the minimum of the right subtree rebuilds that subtree, and the minimum's key comes before the rest of the subtree's keys |
| DeleteCases.SwapDeleteKeys | red_black_tree/red_black_tree.h:297-300 | after swapping keys with the minimum of the right subtree, removing that minimum removes exactly the deleted node's in-order position |
| DeleteCases.RelabelPlug | red_black_tree/red_black_tree.h:299 | changing a key anywhere leaves the colour invariants and the black counts unchanged |
| RedBlackTrees.RedBlackTree.SwapSubstitute | red_black_tree/red_black_tree.h:297-301 | deleting a node with two children: the invariants hold afterwards and exactly its in-order position is removed from the keys |
| RedBlackTrees.RedBlackTree.DeleteNode | red_black_tree/red_black_tree.h:291-302 | del(node): a null node changes nothing; otherwise exactly the node's in-order position is removed, the key multiset loses one copy of its key, the invariants hold, no new node appears, and deleting the last node empties the tree |
| RedBlackTrees.RedBlackTree.Delete | red_black_tree/red_black_tree.h:313-316 | del(val) on a non-empty tree removes one copy of the key if present and otherwise leaves the tree unchanged; the invariants hold |

## Left out

- `fft/fft.h` is not part of this model. It is a floating-point transform, unrelated to the tree.
- `red_black_tree/red_black_tree.cc` is not part of this model. It is an older draft of the header that does not compile.
- `red_black_tree/test.cc` is not part of this model. It holds the random tests, the validator and the printer. The invariants its validator checks are stated in full as `Valid()` instead. That validator compares ordering only between parent and child. It requires a left child's key to be strictly smaller than its parent's (`<`) and a right child's to be at least its parent's (`>=`). The strict left test rejects valid trees with repeated keys: inserting 5, 5, 5 gives a root 5 with a left child 5. `Ordered` asks only that the in-order keys are non-decreasing, and it accepts such trees.
- Memory management is not modelled: `free(old)` in `substitute` and the destructor's post-order `delete`. Records are never removed from the arena. A deleted node and the placeholder stay as unreachable records.
- The placeholder is a stack object in the source. Here it is a heap record with the fresh id `next`, so `next` advances when one is used. Its address and its key 0 play no part beyond this.
- `std::function` visitors are modelled as total functions without side effects. `tranverse` returns the sequence of visitor calls it makes, instead of calling visitors for effect.
- Templates are instantiated with `int`, and keys compare with `<` and `==` on integers.
- `RedBlackTrees.RedBlackTree.Search` requires a non-empty tree, because the source dereferences `root`. Searching an empty tree is meant to be a safe no-op, but the code does not make it one, so the model follows the code.
- `RedBlackTrees.RedBlackTree.Delete` requires a non-empty tree for the same reason: `del(T)` calls the tree-level `search`.
- `RedBlackTrees.RedBlackTree.DeleteNode` requires the node, when not null, to belong to the tree. The source cannot check this, and passing a foreign node is undefined.
- `RedBlackTrees.RedBlackTree.NodeInsert` models node-level `insert` only when called on the root, which is how `RedBlackTree::insert` uses it. Its contract covers the keys and the colour invariants, not the tree's ordering, which `Insert` states.
- `max()` is modelled as written (`Queries.MaxAsWritten`) and as intended (`Queries.MaxFrom`). The source never calls it.
- `is_root`, `is_leaf`, `sub_node`, `insert_left`, `insert_right`, `left_rotate` and `right_rotate` are one-line wrappers. They are used inline (`ParentPtr`, `SubNode`, `Rotate` with a fixed side) and have no rows of their own.
- The output operator `operator<<` is I/O and is not modelled.

## Findings

| source | as written | input that shows it | evidently intended | confidence | as-written member | corrected member |
|---|---|---|---|---|---|---|
| red_black_tree/red_black_tree.h:119-125 | `max()` with a right child returns `right->min()`, the smallest key of the right subtree | the red-black tree with keys 1, 2, 3, 4, 2 at the root and 3 the red left child of 4: `max()` at the root returns the node holding 3 | follow right children to the node without a right child, which holds the largest key | high; proved, not executed | Queries.MaxAsWrittenMissesMax | Queries.MaxFrom |

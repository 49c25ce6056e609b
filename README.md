# go-datastructure containers, modelled in Dafny

This project models the sequential containers of the Go library
go-datastructure and proves what their code promises:

- **Search trees.** The red-black tree (`tree/RB_tree.go`), the AVL tree
  (`tree/AVL_tree.go`), the plain binary search tree (`tree/BST_tree.go`)
  and the treap's node operations (`treap/concurrent_treap.go`). For each,
  the in-order key sequence stays non-decreasing. Insertion places a key
  after the keys equal to it, and deletion removes exactly one occurrence.
  The tree's own balance invariant is kept: colours and black heights, AVL
  balance factors, or the treap's heap order on priorities. Where the
  source's deletion breaks one of these, the model holds both the code as
  written and a corrected deletion (see Findings).
- **Array-backed structures.** The binary min-heap and max-heap
  (`heap/minHeap.go`, `heap/maxHeap.go`). The FIFO queue, the
  double-ended queue and the circular queue (`queue/queue.go`). The
  bounded stack (`stack/stack.go`).
- **Linked and graph structures.** The singly linked list
  (`list/list.go`). The directed adjacency-list graph `GraphL` and the
  undirected adjacency-matrix graph `GraphM` (`graph/graph.go`).

How the model is shaped:

- **Tree nodes** are datatype values (`RbNode`, `AvlNode`, `BstNode`,
  `TreapNode`). Every node has exactly one owner, so rebuilding a subtree
  is the same as rewriting its links in place.
- **The red-black tree's parent pointers** become a *path*: the frames from
  a node's parent up to the root. A node with its path is what the source
  reaches through `parent`. Redirecting the root through `**rbnode` is
  plugging the rebuilt subtree back into its path.
- **Loops stay loops.** Each loop of the source (tree descents, `find_min`,
  the sift loops, queue `Resize`, stack `Flip`, the list walks, the graph
  lookups and renumbering) is a `method` with a `while` loop. Each is proved
  against a function or predicate that states the result.
- **Updated objects stay objects.** The wrappers whose fields the source
  updates (`RBT`, `AVL`, `BST`, the heaps, queues, stack, list and graphs)
  are classes. Their methods carry `modifies` clauses.
- **The linked list keeps heap-allocated nodes.** A ghost sequence of nodes
  and a ghost sequence of values describe the chain.
- **Go panics and errors.**
  - A Go panic (a nil dereference, an index out of range, an explicit
    `panic`) becomes a `requires`.
  - A Go `error` result becomes an `Option<string>` or `Result<T>` holding
    the source's message.
- **Shared modules.** `Errors` holds those wrappers. `Sequences` holds
  sorted insertion and removal, reversal, first and last occurrence, and
  removing or inserting one position. `HeapSpec` holds the sift functions
  both heaps share, parameterised by the order (`Min`, `Max`).
- **Red-black invariants** are named as in the model: I1, the root is
  black; I2, no red node has a red child; I3, every path from a node down
  to nil meets the same number of black nodes. A *valid tree* satisfies
  I1 to I3. A *fix-up state* is the invariant the insertion or deletion
  fix-up keeps at its current node.

## Model

| member | source | states |
|---|---|---|
| RbNode.IsRed | tree/RB_tree.go:535-540 | a nil node is never red |
| RbNode.IsBlack | tree/RB_tree.go:543-550 | black exactly for nil or a node coloured black |
| RbNode.IsLeaf | tree/RB_tree.go:585-590 | a leaf is a node, and it holds exactly its own key |
| RbNode.HasChild | tree/RB_tree.go:577-582 | true exactly for nil or a node with a left or a right child |
| RbNode.Sib | tree/RB_tree.go:609-617 | the brother is the parent's child on the other side of the focus |
| RbNode.Paint | tree/RB_tree.go:519-532 | toBlack/toRed set the colour and keep key and children; nil stays nil |
| RbNode.PaintFacts | tree/RB_tree.go:519-532 | recolouring keeps the keys; painting black keeps no-red-red; painting red keeps it exactly when both children are black |
| RbNode.LeftSpin | tree/RB_tree.go:258-268 | the right child becomes the subtree root; the old root becomes its left child and takes over its left subtree; colours and in-order keys are unchanged |
| RbNode.RightSpin | tree/RB_tree.go:271-281 | mirror of LeftSpin: the left child comes up and the in-order keys are unchanged |
| RbInsert.Uncle | tree/RB_tree.go:601-606 | nil without a grandparent; otherwise the grandparent's children are the parent and the uncle |
| RbInsert.GetCase | tree/RB_tree.go:128-146 | 0 exactly for a black parent; 1 exactly for a red parent with a red uncle; 2 and 3 for a parent that is a left child, 4 and 5 otherwise; 2 and 4 when n is on the other side from its parent, 3 and 5 when on the same side |
| RbInsert.InsInvGrandpa | tree/RB_tree.go:128-146 | during the fix-up a red parent has a black grandparent and a black-balanced path above |
| RbInsert.ProcessCase | tree/RB_tree.go:148-163 | the insertion fix-up, dispatched by getCase, keeps the in-order keys of the whole tree |
| RbInsert.Case1Grandpa | tree/RB_tree.go:175-182 | processCase1's recolouring gives the grandparent back with its key and colour and the same keys below it |
| RbInsert.Case1Order | tree/RB_tree.go:175-182 | processCase1 only recolours: the in-order keys are unchanged, whether or not the grandparent is reddened |
| RbInsert.Case1Inv | tree/RB_tree.go:175-182 | processCase1 with a grandparent at the root leaves a valid tree; otherwise the reddened grandparent is a valid fix-up state |
| RbInsert.Case2Step | tree/RB_tree.go:191-200 | the left rotation at the parent keeps the keys of the whole tree, one level deep on the same grandparent |
| RbInsert.Case2Inv | tree/RB_tree.go:191-200 | processCase2 rotates at the parent, keeps the keys, and leaves a state in which case 3 applies |
| RbInsert.Case3 | tree/RB_tree.go:209-224 | processCase3's recolouring and right rotation keep the in-order keys of the whole tree |
| RbInsert.Case3Shape | tree/RB_tree.go:209-224 | processCase3 ends the fix-up with a tree satisfying I1 to I3 |
| RbInsert.Case4Step | tree/RB_tree.go:227-236 | the right rotation at the parent keeps the keys of the whole tree, one level deep on the same grandparent |
| RbInsert.Case4Inv | tree/RB_tree.go:227-236 | processCase4 rotates at the parent, keeps the keys, and leaves a state in which case 5 applies |
| RbInsert.Case5 | tree/RB_tree.go:239-254 | processCase5's recolouring and left rotation keep the in-order keys of the whole tree |
| RbInsert.Case5Shape | tree/RB_tree.go:239-254 | processCase5 ends the fix-up with a tree satisfying I1 to I3 |
| RbInsert.ProcessCaseShape | tree/RB_tree.go:124-163 | from any valid fix-up state the fix-up ends with a black root, no red-red edge and equal black counts |
| RbInsert.InsertPosition | tree/RB_tree.go:46-65 | the descent sends a value at least the key to the right; it ends at a nil slot with every key before it at most v and every key after it greater |
| RbInsert.NewLeafOrder | tree/RB_tree.go:46-65 | hanging the new red leaf in that slot puts the value after the keys equal to it |
| RbInsert.NewLeafState | tree/RB_tree.go:66-73 | a red leaf under a black parent leaves a valid tree; under a red parent it is the fix-up's starting state |
| RbInsert.Insert | tree/RB_tree.go:40-73 | an empty tree gets a black root; any valid tree stays red-black and gains exactly the value, after the keys equal to it |
| RbDelete.DelCaseAsWritten | tree/RB_tree.go:289-307 | the source's dispatch: 1 exactly for a red brother; 2 only when the far nephew exists, 3 only when it does not; 4 or 5 exactly when the brother is a black leaf, 4 for a red parent |
| RbDelete.DelCase | tree/RB_tree.go:289-307 | the corrected dispatch: 1 exactly for a red brother; 2 only for a red far nephew, 3 only for a red near and a black far one; 4 or 5 exactly when brother and nephews are black, 4 for a red parent |
| RbDelete.DelInvBrother | tree/RB_tree.go:357-370 | during the fix-up n's brother exists, has no red-red edge, equal black counts and one black level more than n, is red only under a black parent, and the path above stays balanced |
| RbDelete.DispatchAgreesAtLeaf | tree/RB_tree.go:289-307 | at the deleted black leaf itself, delCase's child-presence test chooses the same case as the colour test |
| RbDelete.Case1Path | tree/RB_tree.go:379-406 | delCase1's rotation keeps the keys left and right of n and adds one frame below the red parent |
| RbDelete.Case1Rotation | tree/RB_tree.go:379-406 | Case1Path is what delCase1's recolouring and rotation towards n build |
| RbDelete.Case1Inv | tree/RB_tree.go:379-406 | delCase1, entered with a red brother under a black parent, leaves the fix-up state under a red parent, with as many black frames above |
| RbDelete.Case2 | tree/RB_tree.go:416-449 | delCase2 keeps the in-order keys, with n's key gone when n is a leaf |
| RbDelete.Case2Shape | tree/RB_tree.go:416-449 | delCase2 with a red far nephew ends with a valid tree |
| RbDelete.Case3Brother | tree/RB_tree.go:457-467 | delCase3's rotation at the brother keeps the brother's keys |
| RbDelete.Case3 | tree/RB_tree.go:457-467 | delCase3 followed by delCase2 keeps the in-order keys minus a deleted leaf |
| RbDelete.Case3Inv | tree/RB_tree.go:457-467 | delCase3 with a red near nephew hands delCase2 a state whose far nephew is red |
| RbDelete.Case3Shape | tree/RB_tree.go:457-467 | delCase3 ends with a valid tree |
| RbDelete.Case4 | tree/RB_tree.go:476-486 | delCase4 keeps the in-order keys minus a deleted leaf |
| RbDelete.Case4Shape | tree/RB_tree.go:476-486 | delCase4 with a red parent and black nephews ends with a valid tree |
| RbDelete.Case5Parent | tree/RB_tree.go:495-508 | delCase5 reddens the brother and returns the parent with the same keys minus a deleted leaf |
| RbDelete.Case5Inv | tree/RB_tree.go:495-508 | delCase5 at the root ends valid; otherwise the parent is a valid fix-up state with fewer black frames above |
| RbDelete.DelBlackLeaf | tree/RB_tree.go:357-370 | the black-node fix-up, with either dispatch, keeps the in-order keys with n's key gone |
| RbDelete.DelBlackLeafShape | tree/RB_tree.go:357-370 | the fix-up with the colour-based dispatch leaves a tree satisfying I1 to I3 |
| RbDelete.AsWrittenFixupUnbalances | tree/RB_tree.go:289-307 | deleting leaf 1 from a valid tree: the source's dispatch unbalances it; the colour-based dispatch keeps it valid |
| RbDelete.FindMin | tree/RB_tree.go:310-316 | the loop ends at a node without a left child whose key is the first key of the subtree |
| RbDelete.Locate | tree/RB_tree.go:85-103 | the search ends at a node holding v, or at nil only when v is not in the tree |
| RbDelete.OneBranchShape | tree/RB_tree.go:324-343 | a one-child node's child, painted black, takes its place validly |
| RbDelete.BlackLeafInv | tree/RB_tree.go:349-370 | a black leaf below the root is a valid start for the fix-up |
| RbDelete.TwoChildrenShape | tree/RB_tree.go:106-121 | replacing a two-child node's key by its successor's and removing the successor leaves the tree around the successor valid |
| RbDelete.TwoChildrenOrder | tree/RB_tree.go:106-121 | that replacement removes exactly the node's key from the keys around it |
| RbDelete.DelNode | tree/RB_tree.go:106-121 | del_node, with the source's fix-up dispatch (asWritten) or the colour-based one, removes exactly the node's key; only with the colour-based dispatch is the result promised to satisfy I1 to I3 |
| RbDelete.DeleteOrder | tree/RB_tree.go:85-103 | removing the first node holding the key removes its first occurrence from the sorted keys, which stay sorted |
| RbDelete.Delete | tree/RB_tree.go:85-103 | with either fix-up dispatch the keys lose the first occurrence of v and an absent key returns the very same tree; with the colour-based dispatch the tree also stays red-black |
| RbTree.RBT.NewRBT | tree/RB_tree.go:715-721 | the keys are the values inserted one by one; the tree is red-black |
| RbTree.RBT.Insert | tree/RB_tree.go:656-658 | the key joins after the keys equal to it and the tree stays red-black |
| RbTree.RBT.Delete | tree/RB_tree.go:661-666 | an empty tree or an absent key leaves the root exactly as it was; otherwise one occurrence leaves and the tree stays red-black |
| RbTree.RBT.IsEmpty | tree/RB_tree.go:669-674 | true exactly when no key is held |
| RbTree.RBT.FromSlice | tree/RB_tree.go:676-683 | the values are inserted one by one, in order |
| RbTree.RBT.ToSlice | tree/RB_tree.go:685-689 | on a non-empty tree, the keys held, in non-decreasing order; an empty tree panics because the node walk it calls (tree/RB_tree.go:630-638) has no nil check, so the requires excludes it |
| RbTree.ToSliceDeterminedByKeys | tree/RB_tree.go:685-689 | two valid non-empty trees holding the same keys give the same ToSlice, whatever their shapes |
| AvlNode.Height | tree/AVL_tree.go:51-63 | 0 exactly for nil, and never more than the number of keys |
| AvlNode.LeftSpin | tree/AVL_tree.go:19-26 | the right child comes up; the in-order keys are unchanged |
| AvlNode.RightSpin | tree/AVL_tree.go:29-36 | the left child comes up; the in-order keys are unchanged |
| AvlNode.LeftRightSpin | tree/AVL_tree.go:39-42 | a left rotation at the left child, then a right rotation; keys keep their order |
| AvlNode.RightLeftSpin | tree/AVL_tree.go:45-48 | a right rotation at the right child, then a left rotation; keys keep their order |
| AvlNode.Adjust | tree/AVL_tree.go:117-137 | recomputing the balance and rotating keeps the in-order keys, and a node stays a node |
| AvlNode.DeleteMin | tree/AVL_tree.go:104-114 | the minimum comes out as a detached leaf holding the first key; the remaining subtree holds the other keys in order |
| AvlNode.Insert | tree/AVL_tree.go:66-76 | insert always returns a node (a new leaf for nil, otherwise the adjusted node); that it places the key after equal keys, keeps every balance field true and keeps AVL balance is proved in AvlNode.InsertOrder, AvlNode.InsertStored and AvlNode.InsertBalanced |
| AvlNode.Delete | tree/AVL_tree.go:79-101 | delete never adds a key, so nil stays nil; that it removes the first occurrence, keeps the balance fields true and (with the corrected tie-break) keeps AVL balance is proved in AvlNode.DeleteOrder, AvlNode.DeleteStored and AvlNode.DeleteBalanced |
| AvlNode.InsertOrder | tree/AVL_tree.go:66-76 | in a search tree, insert places the key after the keys equal to it |
| AvlNode.DeleteOrder | tree/AVL_tree.go:79-101 | in a search tree, delete removes the first occurrence of the key (nothing when absent) |
| AvlNode.AdjustStored | tree/AVL_tree.go:117-137 | adjust stores the true balance factor, height(left) - height(right), in the nodes it builds |
| AvlNode.InsertStored | tree/AVL_tree.go:66-76 | insert keeps every balance field equal to height(left) - height(right) |
| AvlNode.DeleteMinStored | tree/AVL_tree.go:104-114 | deletemin keeps every balance field true |
| AvlNode.DeleteStored | tree/AVL_tree.go:79-101 | delete keeps every balance field true |
| AvlNode.AdjustBalanced | tree/AVL_tree.go:117-137 | adjust on subtrees differing by at most two gives an AVL tree (always with the corrected tie-break; with the source's when there is no tie) |
| AvlNode.InsertBalanced | tree/AVL_tree.go:66-76 | insert keeps every balance in {-1, 0, 1} and grows the tree by at most one level |
| AvlNode.DeleteMinBalanced | tree/AVL_tree.go:104-114 | deletemin with the corrected tie-break keeps an AVL tree and lowers it by at most one level |
| AvlNode.DeleteBalanced | tree/AVL_tree.go:79-101 | delete with the corrected tie-break keeps an AVL tree and lowers it by at most one level |
| AvlNode.AsWrittenDeleteUnbalances | tree/AVL_tree.go:123-130 | deleting 8 from a 9-node AVL tree: the source's tie-break leaves a node of balance 2; the corrected one gives an AVL tree |
| AvlTree.AVL.NewAVL | tree/AVL_tree.go:241-247 | an AVL tree holding the values inserted one by one |
| AvlTree.AVL.Insert | tree/AVL_tree.go:180-182 | the key joins after the keys equal to it; the tree stays AVL with true balance fields |
| AvlTree.AVL.Delete | tree/AVL_tree.go:185-187 | one occurrence of the key leaves (none when absent); the tree stays AVL |
| AvlTree.AVL.Clear | tree/AVL_tree.go:189-191 | the tree becomes empty |
| AvlTree.AVL.FromSlice | tree/AVL_tree.go:194-201 | nothing for no values; otherwise they are inserted in order |
| AvlTree.AVL.ToSlice | tree/AVL_tree.go:204-208 | the keys held, in non-decreasing order |
| AvlTree.AVL.IsEmpty | tree/AVL_tree.go:211-216 | true exactly when no key is held |
| AvlTree.AVL.RootValue | tree/AVL_tree.go:219-224 | -1 for an empty tree; otherwise the root's key, one of the keys held |
| BstNode.Insert | tree/BST_tree.go:29-43 | the node keeps its key and the subtree gains exactly the new key |
| BstNode.InsertOrder | tree/BST_tree.go:29-43 | in a search tree the new key lands after the keys equal to it |
| BstNode.DeleteMin | tree/BST_tree.go:59-73 | the leftmost node of the right subtree is unlinked and returned with its right link cleared; the right subtree loses its first key |
| BstNode.Locate | tree/BST_tree.go:76-90 | on any tree the walk stops at a node holding v or at nil; on a search tree it reaches nil only when v is absent; the link it holds is the parent's left link exactly when the node is a left child (always, as written) |
| BstNode.Replacement | tree/BST_tree.go:91-100 | a two-child node is replaced by the right subtree's minimum carrying both subtrees; otherwise by its only child; the keys lose just the node's key |
| BstNode.WriteLink | tree/BST_tree.go:91-100 | writing through the held link is plugging the replacement into the node's own place whenever the held link is the node's own (always at the root) |
| BstNode.DeleteOrder | tree/BST_tree.go:76-103 | writing the replacement into the found node's own link removes one occurrence of its key and keeps the keys sorted |
| BstNode.Delete | tree/BST_tree.go:76-103 | on any tree, including one left unsorted by an earlier as-written delete, an absent key leaves the tree unchanged; on a search tree, corrected (or when the walk takes only left links), the keys lose the first occurrence of v and stay sorted |
| BstNode.AsWrittenKeepsKey | tree/BST_tree.go:84 | as written, a right child found by the walk stays linked with its key after the replacement is written |
| BstNode.AsWrittenDeleteKeepsRightChild | tree/BST_tree.go:84 | deleting 7 from the tree 5 with right child 7 leaves 7 in the tree |
| BstTree.BST.NewBST | tree/BST_tree.go:18-26 | an empty tree for no values; otherwise the values inserted in order |
| BstTree.BST.Insert | tree/BST_tree.go:106-118 | the keys are inserted one by one, in order, and stay sorted |
| BstTree.BST.Delete | tree/BST_tree.go:121-126 | nothing on an empty tree or an absent key; otherwise one occurrence leaves |
| BstTree.BST.Clear | tree/BST_tree.go:128-130 | the tree becomes empty |
| BstTree.BST.IsEmpty | tree/BST_tree.go:133-138 | true exactly when no key is held |
| BstTree.BST.ToSlice | tree/BST_tree.go:141-145 | the keys held, in non-decreasing order |
| BstTree.BST.FromSlice | tree/BST_tree.go:148-153 | nothing for no values; otherwise Insert of them all |
| BstTree.BST.Search | tree/BST_tree.go:156-168 | true exactly when the key is held |
| BstTree.BST.Min | tree/BST_tree.go:171-180 | the first key of ToSlice, a lower bound of every key |
| BstTree.BST.Max | tree/BST_tree.go:183-192 | the last key of ToSlice, an upper bound of every key |
| BstTree.ToSliceDeterminedByKeys | tree/BST_tree.go:141-145 | two valid trees holding the same keys give the same ToSlice |
| TreapNode.LeftSpin | treap/concurrent_treap.go:18-23 | the right child comes up; the in-order keys, the size and every lower bound on the priorities are kept |
| TreapNode.RightSpin | treap/concurrent_treap.go:26-31 | the left child comes up; the in-order keys, the size and every lower bound on the priorities are kept |
| TreapNode.Adjust | treap/concurrent_treap.go:34-42 | rotating a child of smaller priority up keeps the in-order keys and every lower bound on the priorities |
| TreapNode.Insert | treap/concurrent_treap.go:45-55 | insert, with the priority as a parameter, always returns a node; heap order and key placement are proved in TreapNode.InsertHeap and TreapNode.InsertOrder |
| TreapNode.InsertHeap | treap/concurrent_treap.go:34-55 | if every node's priority is at most its children's before insert, the same holds after |
| TreapNode.Delete | treap/concurrent_treap.go:58-81 | the corrected delete (the search continues in the subtree the node was rotated into) never grows the tree; heap order, key removal and absent keys are proved in TreapNode.DeleteHeap, TreapNode.DeleteKeys, TreapNode.DeleteOrder and TreapNode.DeleteAbsent |
| TreapNode.DeleteAsWritten | treap/concurrent_treap.go:58-81 | the source's delete, restarting from the new subtree root after a rotation and spending one unit of fuel per call: None when the fuel is 0; its key, order and heap facts, and its agreement with the corrected delete on distinct keys, are in the AsWritten lemmas (TreapNode.AsWrittenDeleteKeys, TreapNode.AsWrittenDeleteOrder, TreapNode.AsWrittenAgrees) |
| TreapNode.InsertOrder | treap/concurrent_treap.go:45-55 | in a treap with sorted keys the new key lands after the keys equal to it |
| TreapNode.DeleteHeap | treap/concurrent_treap.go:62-73 | the corrected delete keeps the priority heap order (for the source's delete see AsWrittenDeleteTreap and AsWrittenDeleteBreaksHeap) |
| TreapNode.DeleteAbsent | treap/concurrent_treap.go:58-61 | deleting an absent key returns the tree unchanged |
| TreapNode.AsWrittenDeleteAbsent | treap/concurrent_treap.go:74-80 | the same for the source's delete, given fuel for one call per level |
| TreapNode.DeleteKeys | treap/concurrent_treap.go:62-73 | the corrected delete keeps the keys sorted and removes exactly one occurrence when the key is held (AsWrittenDeleteKeys: the same for the source's delete) |
| TreapNode.DeleteOrder | treap/concurrent_treap.go:58-81 | the corrected delete removes the first occurrence of the key from the sorted keys (AsWrittenDeleteOrder: the same for the source's delete) |
| TreapNode.AsWrittenDeleteKeys | treap/concurrent_treap.go:58-81 | wherever the source's delete ends on a treap with sorted keys, the keys stay sorted and exactly one occurrence of the key leaves when it is held |
| TreapNode.AsWrittenDeleteOrder | treap/concurrent_treap.go:58-81 | wherever the source's delete ends, its keys are the first occurrence removed, the same keys as the corrected delete gives |
| TreapNode.AsWrittenAgrees | treap/concurrent_treap.go:58-81 | on distinct keys, with fuel for two calls per node, the source's delete ends with the corrected delete's tree |
| TreapNode.AsWrittenDeleteTreap | treap/concurrent_treap.go:58-81 | so on a treap with distinct keys the source's delete ends with heap-ordered priorities and the key's first occurrence removed |
| TreapNode.AsWrittenDeleteBreaksHeap | treap/concurrent_treap.go:62-68 | on a treap with two nodes holding 5, built by inserts, the source's delete of 5 ends but removes the lower 5 and leaves a node above one of smaller priority; the corrected delete keeps the heap order |
| TreapNode.AsWrittenDeleteLoops | treap/concurrent_treap.go:62-68 | on a treap with two nodes holding 5, the source's delete of 5 returns to its starting state after two calls, so no fuel ends it |
| TreapNode.CorrectedDeleteOnLoop | treap/concurrent_treap.go:62-68 | the corrected delete takes one 5 out of that treap and keeps it a treap |
| HeapSpec.SiftUp | heap/minHeap.go:38-46 | the sift-up loop only exchanges elements: the multiset and the length are kept |
| HeapSpec.PutSpec | heap/minHeap.go:34-47 | Put adds exactly the value: one more element, the multiset grows by the value |
| HeapSpec.SiftDown | heap/minHeap.go:59-75 | the sift-down loop only exchanges elements: the multiset and the length are kept |
| HeapSpec.GetSpec | heap/minHeap.go:55-75 | Get on a non-empty heap removes exactly the top and shrinks the slice by one |
| HeapSpec.TopDominatesAll | heap/minHeap.go:55-58 | the top of a heap is the least (min) or greatest (max) element |
| HeapSpec.PutHeap | heap/minHeap.go:34-47 | Put keeps a heap a heap |
| HeapSpec.PutAllHeap | heap/minHeap.go:14-31 | any sequence of Puts from a heap gives a heap |
| HeapSpec.GetHeap | heap/minHeap.go:59-75 | Get keeps a heap a heap |
| HeapSpec.SiftDownHeap | heap/minHeap.go:59-75 | sifting down from the one place the order may fail restores the heap order |
| MinHeaps.MinHeap.NewMinHeap | heap/minHeap.go:14-22 | the values put one by one into an empty heap, in min-heap order |
| MinHeaps.MinHeap.FromSlice | heap/minHeap.go:25-31 | the slice's values put one by one into an empty heap, in min-heap order |
| MinHeaps.MinHeap.Put | heap/minHeap.go:34-47 | the value is added once, the slice grows by one, and the min-heap order is kept |
| MinHeaps.MinHeap.Get | heap/minHeap.go:50-78 | empty: the error "Heap is empty." and no change; otherwise the least element is returned and exactly one copy of it removed, keeping the heap order |
| MinHeaps.MinHeap.Top | heap/minHeap.go:81-88 | empty: the error "Heap is empty."; otherwise index 0, the least element; nothing changes |
| MinHeaps.MinHeap.Empty | heap/minHeap.go:91-93 | true exactly when no element is held |
| MinHeaps.MinHeap.PutEach | heap/minHeap.go:14-31 | the values are put one by one, in order, keeping the heap order |
| MaxHeaps.MaxHeap.NewMaxHeap | heap/maxHeap.go:14-22 | the values put one by one into an empty heap, in max-heap order |
| MaxHeaps.MaxHeap.FromSlice | heap/maxHeap.go:25-31 | the slice's values put one by one into an empty heap, in max-heap order |
| MaxHeaps.MaxHeap.Put | heap/maxHeap.go:34-47 | the value is added once, the slice grows by one, and the max-heap order is kept |
| MaxHeaps.MaxHeap.Get | heap/maxHeap.go:50-77 | empty: the error "Heap is empty." and no change; otherwise the greatest element is returned and exactly one copy of it removed |
| MaxHeaps.MaxHeap.Top | heap/maxHeap.go:80-87 | empty: the error "Heap is empty."; otherwise index 0, the greatest element; nothing changes |
| MaxHeaps.MaxHeap.Empty | heap/maxHeap.go:90-92 | true exactly when no element is held |
| MaxHeaps.MaxHeap.PutEach | heap/maxHeap.go:14-31 | the values are put one by one, in order, keeping the heap order |
| Queues.Queue.Push | queue/queue.go:17-19 | the element joins at the back |
| Queues.Queue.NewQueue | queue/queue.go:70-74 | a new queue holds no element |
| Queues.Queue.Pop | queue/queue.go:22-29 | empty: an error and no change; otherwise the front element leaves and is returned (first in, first out) |
| Queues.Queue.Head | queue/queue.go:32-38 | an error exactly when empty, with the message "Empty queue error."; otherwise the element Pop would return |
| Queues.Queue.Len | queue/queue.go:41-43 | the number of elements |
| Queues.Queue.Empty | queue/queue.go:46-51 | true exactly when no element is held |
| Queues.DQueue.PushFront | queue/queue.go:83-85 | the element joins at the front |
| Queues.DQueue.NewDQueue | queue/queue.go:162-166 | a new double-ended queue holds no element |
| Queues.DQueue.PushBack | queue/queue.go:88-90 | the element joins at the back |
| Queues.DQueue.PopFront | queue/queue.go:93-100 | empty: an error; otherwise the front element leaves, so it undoes PushFront |
| Queues.DQueue.PopBack | queue/queue.go:103-111 | empty: an error; otherwise the back element leaves, so it undoes PushBack |
| Queues.DQueue.Head | queue/queue.go:114-120 | an error exactly when empty, with the message "Empty dqueue error"; otherwise the front element |
| Queues.DQueue.Tail | queue/queue.go:123-130 | an error exactly when empty, with the message "Empty dqueue error"; otherwise the back element |
| Queues.DQueue.Len | queue/queue.go:133-135 | the number of elements |
| Queues.DQueue.Empty | queue/queue.go:138-143 | true exactly when no element is held |
| Queues.WrapOnce | queue/queue.go:188-189 | the index (h + i) mod n that Push, Pop and Resize compute is the slot i places after h, wrapped round the ring at most once |
| Queues.CQueue.NewCQueue | queue/queue.go:264-275 | a size of zero or less is an error; otherwise an empty queue of that size |
| Queues.CQueue.Push | queue/queue.go:183-192 | an error, changing nothing, exactly when count equals size; otherwise the element joins at the back and tail == (head + count) mod size still holds |
| Queues.CQueue.Pop | queue/queue.go:195-204 | empty: an error; otherwise the oldest element leaves and is returned, keeping the ring invariant |
| Queues.CQueue.Head | queue/queue.go:207-214 | an error exactly when empty, with the message "Queue is empty."; otherwise the element Pop would return |
| Queues.CQueue.Len | queue/queue.go:217-219 | the number of elements held |
| Queues.CQueue.Empty | queue/queue.go:222-224 | true exactly when no element is held |
| Queues.CQueue.Full | queue/queue.go:227-229 | true exactly when every slot is used |
| Queues.CQueue.Resize | queue/queue.go:232-244 | a size no larger than the count is the error "New size is too small." with buffer, size, head, tail and count unchanged; otherwise the same elements in order in a new buffer, head 0 and tail count; the old size is returned |
| Stacks.Stack.New | stack/stack.go:102-111 | an empty stack limited by a positive first argument, unlimited otherwise |
| Stacks.Stack.Push | stack/stack.go:16-22 | an error, changing nothing, exactly when a limit is set and reached; otherwise the element becomes the top |
| Stacks.Stack.Pop | stack/stack.go:26-34 | empty: an error; otherwise the top element leaves and is returned (last in, first out) |
| Stacks.Stack.RemoveLimit | stack/stack.go:37-39 | the limit is gone and the elements stay, so every later Push succeeds |
| Stacks.Stack.Flip | stack/stack.go:42-52 | the elements in reverse order |
| Sequences.ReversedTwice | stack/stack.go:42-52 | reversing twice gives the sequence back, so Flip twice is the identity |
| Stacks.Stack.Top | stack/stack.go:55-62 | an error exactly when empty; otherwise the element Pop would return |
| Stacks.Stack.Len | stack/stack.go:65-67 | the number of elements |
| Stacks.Stack.Cap | stack/stack.go:70-75 | the limit, never exceeded by the length, or -1 exactly when there is none |
| Stacks.Stack.Empty | stack/stack.go:78-83 | true exactly when no element is held |
| Lists.List.New | list/list.go:19-26 | a list holding the values in order, with length, head and tail consistent with its chain of nodes |
| Lists.List.Insert | list/list.go:29-39 | the value becomes the first element |
| Lists.List.InsertAt | list/list.go:42-61 | the value is placed at the index, between the elements before and after it; other indices panic |
| Lists.List.Add | list/list.go:64-74 | the value becomes the last element |
| Lists.List.AddRange | list/list.go:77-81 | the values are added at the end, in order |
| Lists.List.InsertRange | list/list.go:84-88 | the values end up at the front in reverse order |
| Lists.List.HasValue | list/list.go:91-98 | true exactly when the value occurs |
| Lists.List.RemoveValue | list/list.go:101-121 | the first occurrence of the value leaves; an absent value changes nothing; an empty list panics |
| Lists.List.FindLast | list/list.go:127-136 | the first loop finds the node of the last occurrence, or none |
| Lists.List.RemoveLastValue | list/list.go:124-148 | the last occurrence of the value leaves; a value not held panics |
| Lists.List.RemoveAt | list/list.go:151-177 | the element at the index leaves; a negative index counts from the back |
| Lists.List.RemoveLastAt | list/list.go:180-183 | the element at position length - index leaves, through RemoveAt |
| Lists.List.Clear | list/list.go:186-190 | the list becomes empty |
| Lists.List.Empty | list/list.go:193-198 | true exactly when no element is held |
| Lists.List.Length | list/list.go:201-203 | the number of elements |
| Sequences.FirstIndex | list/list.go:101-121 | -1 exactly when absent; otherwise a position holding the value with none before it |
| Sequences.LastIndex | list/list.go:124-148 | -1 exactly when absent; otherwise a position holding the value with none after it |
| Sequences.CutInserted | list/list.go:42-61 | removing the element just inserted at a position gives the list back |
| Graphs.FindLast | graph/graph.go:286-295 | the lookup that keeps going after a match: the last vertex with the name, or -1 |
| Graphs.FindBoth | graph/graph.go:39-47 | the last vertex with each of the two names, or -1 |
| Graphs.FindFirst | graph/graph.go:65-71 | the lookup that breaks at the first match: the first vertex with the name, or -1 |
| Graphs.GraphL.NewGraphL | graph/graph.go:185-191 | the vertices in order, none with an edge |
| Graphs.GraphL.Insert | graph/graph.go:33-35 | a vertex without edges joins at the end; every edge still ends at a vertex |
| Graphs.GraphL.AddEdge | graph/graph.go:38-61 | a missing vertex is an error, changing nothing; otherwise the edge joins the end of the start vertex's list, so its out-degree rises by one |
| Graphs.GraphL.DeleteEdgeAt | graph/graph.go:106-123 | the first edge to the end vertex leaves the list; nothing changes when there is none |
| Graphs.DropFirstToCount | graph/graph.go:106-123 | deletedge takes out exactly one edge to the end vertex when there is one |
| Graphs.DropFirstToAppended | graph/graph.go:38-61 | deleting the edge just added, to a vertex without other edges from the start, gives the list back |
| Graphs.GraphL.DeleteEdge | graph/graph.go:88-103 | a missing vertex or an empty list is an error, changing nothing; otherwise the first edge to the end vertex leaves |
| Graphs.GraphL.Delete | graph/graph.go:64-85 | a missing vertex is an error; otherwise the vertex leaves, every edge to it goes and later indices move down, so every edge still ends at a vertex |
| Graphs.DeleteVertex | graph/graph.go:64-85 | the remaining vertices keep their order |
| Graphs.DeleteVertexWellformed | graph/graph.go:64-85 | deleting a vertex, with every edge to it dropped, leaves every edge ending at a vertex |
| Graphs.RetargetLength | graph/graph.go:76-83 | a list loses exactly its edges to the deleted vertex |
| Graphs.RetargetAsWritten | graph/graph.go:76-83 | as written, a list loses at most one edge, and one exactly when it has an edge to the deleted vertex |
| Graphs.DeleteVertexAsWritten | graph/graph.go:64-85 | the source's vertex delete: the other vertices keep their order and each list loses only its first edge to the deleted vertex |
| Graphs.AsWrittenDeleteDangles | graph/graph.go:75-83 | with two edges a to b, the source's delete of b leaves an edge to index 1 in a one-vertex graph |
| Graphs.GraphL.OutDegree | graph/graph.go:126-142 | -1 for a missing vertex; otherwise the length of its edge list |
| Graphs.GraphL.InDegree | graph/graph.go:145-168 | -1 for a missing vertex; otherwise the edges to it from every other vertex's list |
| Graphs.InCountAdd | graph/graph.go:38-61 | adding an edge between two different vertices raises the end's in-degree by one |
| Graphs.GraphM.NewGraphM | graph/graph.go:397-399 | one unvisited vertex and a 1 by 1 zero matrix |
| Graphs.GraphM.Insert | graph/graph.go:212-225 | a new unvisited vertex with a zero row and column, then an edge to each listed vertex; the matrix stays square and symmetric |
| Graphs.Grown | graph/graph.go:214-221 | the matrix grows by a zero row and column; the old entries are kept and it is symmetric exactly when the old one was |
| Graphs.LinkAllSymmetric | graph/graph.go:222-224 | the edges Insert adds keep the matrix symmetric |
| Graphs.GraphM.AddEdge | graph/graph.go:228-244 | an error, changing nothing, exactly when a name is missing; otherwise entries [si][ei] and [ei][si] become 1; the matrix stays square and symmetric |
| Graphs.SetBothSymmetric | graph/graph.go:240-241 | setting both mirror entries keeps a symmetric matrix symmetric and changes no other entry |
| Graphs.SetBothRaisesDegree | graph/graph.go:240-241 | a new edge between two vertices raises each one's degree by one |
| Graphs.UnlinkLinked | graph/graph.go:267-283 | deleting an edge just added between two unconnected vertices gives the matrix back |
| Graphs.GraphM.Delete | graph/graph.go:247-264 | a missing vertex is an error; otherwise its row and column leave with it and the matrix stays square and symmetric |
| Graphs.RemovedSymmetric | graph/graph.go:258-262 | removing a row and the same column keeps the matrix symmetric |
| Graphs.GraphM.DeleteEdge | graph/graph.go:267-283 | an error, changing nothing, exactly when a name is missing; otherwise entries [si][ei] and [ei][si] become 0 |
| Graphs.GraphM.Degree | graph/graph.go:286-302 | -1 for a missing vertex; otherwise the number of 1 entries in its row |
| Graphs.GraphM.Reset | graph/graph.go:390-394 | every visit flag is cleared; names, order and the matrix are unchanged |

## Left out

- **Printing and formatting.** `printnode`, `printInOrder`, `Print`,
  `PrintRoot`, `Color.String`, every `String()` method, the AVL
  `printTree`/`print`, the treap `printRoot`/`printLeft`/`printRight`,
  `PrintGraphL`/`PrintGraphM` and the `min_heap`/`max_heap` `Print`: these
  only write to standard output.
- `Lists.List.RemoveLastValue`: the debug calls `println(lst.value.(int))`
  and `println(p.value.(int))` (list/list.go:131,142) are left out. Their
  `.(int)` type assertions panic when the element is not an `int`. The
  model is generic in the element type and removes such an element
  instead of panicking.
- **Graph searches.** `GraphM.BFs`, `bfs`, `DFs` and `dfs`
  (graph/graph.go:305-367) are left out; they only print a visit order.
- **Lock-wrapped copies.** The `concurrent_*` copies of the queue, list and
  heaps, and the treap's `Treap` wrapper (lock, `NewTreap`, `Insert`,
  `Delete`, `FromSlice`, `ToSlice`, `String`, `GetRoot`). Their logic is
  the node code modelled here inside a mutex.
- **Random priorities.** The treap's `rand.Intn` priorities and `init`
  seeding: `TreapNode.Insert` takes the priority as a parameter.
- `XOR` (tree/RB_tree.go:75-77) is not used by the tree's operations.
- **Go `int` width.** Go's `int` is modelled as an unbounded integer.
  Nothing in the core adds or multiplies keys. The only arithmetic is on
  indices and counts, which stay far below 2^63.
- **Element types.** `interface{}` values are a type parameter `T`
  compared with `==`. The stack and the circular queue use `T(0)` for
  the zero value that Go's `make` fills new slices with.
- **Red-black tree nodes.**
  - Parent pointers are not fields: a node's position is its path to the
    root, so `grandpa`, `uncle`, `brother`, `isLeft` and `isRight` read
    the path.
  - The `**rbnode` root redirection is the path plugged back to the root.
  - `flip_color` (tree/RB_tree.go:511-516) is only used inside the cases
    as a recolouring and is folded into them.
- **AVL balance field.** The AVL `balance` field is kept in each node.
  Its agreement with the heights is a proved invariant (`*Stored`).
- **GraphL edge lists.**
  - Each edge list is a sequence of (end index, cost) values, not a
    chain of heap nodes.
  - `AddEdge`'s walk to the last edge node is the append to that
    sequence.
  - `deletedge`'s walk is the first-match search `FindFirst` over the end
    indices.
- `Graphs.FindBoth`: looks up the two names in two passes of the
  last-match loop rather than one loop that tests both. The indices found
  are the same.
- `Graphs.GraphL.Delete`: drops every edge to the deleted vertex. The
  source drops only the first edge in each list (see Findings);
  `Graphs.DeleteVertexAsWritten` models the source's behaviour.
- `AvlTree.AVL.Delete`: uses the single rotation on a height tie. The
  source's test is modelled by `AvlNode.Delete` with `asWritten` (see
  Findings).
- `BstTree.BST.Delete`: holds the right link on the right step of the
  walk. The source's step is modelled by `BstNode.Delete` with
  `asWritten` (see Findings).
- `RbTree.RBT.Delete`: dispatches the black-node fix-up on the nephews'
  colours. The source's dispatch is modelled by
  `RbDelete.DelBlackLeaf` with `asWritten` (see Findings).
- `RbDelete.DelNode`: with `asWritten` (the source's dispatch) only the
  keys are promised, not I1 to I3, because that dispatch can break I3
  (see Findings).
- `RbDelete.Delete`: with `asWritten` only the keys are promised, not
  that the tree stays red-black, for the same reason.
- `TreapNode.DeleteAsWritten`: carries a fuel bound, because the source's
  recursion does not terminate on some inputs (see Findings). With fuel
  for one call per level it agrees with the corrected delete on absent
  keys. With fuel for two calls per node it agrees with it on any treap
  whose keys are distinct.
- `TreapNode.DeleteHeap`: is proved of the corrected delete. For the
  source's delete the heap order is proved only on treaps with distinct
  keys (`AsWrittenDeleteTreap`). With a repeated key it can fail even
  where the delete ends (`AsWrittenDeleteBreaksHeap`).
- `TreapNode.DeleteKeys`: is proved of the corrected delete. The source's
  delete gets the same property wherever it ends (`AsWrittenDeleteKeys`),
  but nothing is promised where it does not end.
- `TreapNode.DeleteOrder`: is proved of the corrected delete. The source's
  delete gets it wherever it ends (`AsWrittenDeleteOrder`).

## Findings

| source | as written | input that shows it | evidently intended | confidence | as-written member | corrected member |
|---|---|---|---|---|---|---|
| tree/RB_tree.go:289-307 | delCase picks case 2 or 3 by whether the brother has a far child, not by its colour; after delCase5 moves the fix-up up to an internal parent, a black far nephew is taken for a red one | delete 1 from the valid tree 5(2(1,3),8(6(-,7),9(-,10))) with 7 and 10 red: case 5 at 1, then case 2 at 2 because 9 exists; the black heights differ afterwards | choose cases 2 and 3 by the nephews' colours | high, not executed | RbDelete.AsWrittenFixupUnbalances | RbDelete.DelBlackLeafShape |
| tree/BST_tree.go:84 | the right step of the delete walk holds the parent's left link (`p = &(q.left)`) | delete 7 from the tree 5 with right child 7: the parent's left link is written with nil and 7 stays | hold the right link (`p = &(q.right)`) | high, not executed | BstNode.AsWrittenDeleteKeepsRightChild | BstNode.Delete |
| tree/AVL_tree.go:123-130 | adjust picks the double rotation when the heavy child's subtrees are equally tall, which delete can produce | insert 7,4,9,2,5,8,1,3,6, then delete 8: node 4 ends with subtrees of heights 2 and 0 | single rotation on a tie | high, not executed | AvlNode.AsWrittenDeleteUnbalances | AvlNode.DeleteBalanced |
| treap/concurrent_treap.go:62-68 | after rotating a child up, delete restarts from the new subtree root, which can hold the same key and rotate back | insert 5/p2, 3/p4, 7/p3, 5/p1 (key/priority), then delete 5: the two nodes holding 5 rotate back and forth forever | continue the deletion in the subtree the node was rotated into | high, not executed | TreapNode.AsWrittenDeleteLoops | TreapNode.CorrectedDeleteOnLoop |
| treap/concurrent_treap.go:62-68 | the same restart can also end by removing a different node holding the key, one below the node that was rotated down | insert 5/p3, 3/p2, 7/p10, 5/p1, then delete 5: the lower 5 is removed and the node 3 (priority 2) ends above the node 5 (priority 1) | continue the deletion in the subtree the node was rotated into | high, not executed | TreapNode.AsWrittenDeleteBreaksHeap | TreapNode.DeleteHeap |
| graph/graph.go:75-83 | Delete removes only the first edge to the deleted vertex from each list (deletedge), then renumbers the indices above it | vertices a, b; AddEdge(a,b,0) twice; Delete(b): a keeps an edge to index 1 while only index 0 exists | remove every edge to the deleted vertex | high, not executed | Graphs.AsWrittenDeleteDangles | Graphs.DeleteVertexWellformed |

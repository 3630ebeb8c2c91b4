# Verified model of a set of C containers

This project models seven sequential containers from a C teaching repository and proves their
contracts in Dafny. The containers are:

- an AVL tree, the centrepiece (`ABC_AVL/avl.c`);
- a plain binary search tree (`ABC_AVL/bst.c`);
- a treap (`treap/treap.c`);
- a lowercase trie (`Trie/trie.c`);
- a bounded circular queue (`Queue_Stack/Queue.c`);
- a singly linked list with a stack on top (`Queue_Stack/Stack.c`);
- a doubly linked list with `sum_lists`, which adds two numbers stored as base-10 digit lists
  (`listaDubluInlantuita/lista_dublu_inlantuita.c`).

Opaque `void *` records and the caller's comparator become `int` under the natural order.

Files:

- `options.dfy`: an `Option` type. A NULL result is `None`.
- `avl.dfy`, `bst.dfy`, `treap.dfy`, `trie.dfy`: the trees.
  - A node is a value datatype. Each C routine that rewrites a parent's child slot through a
    pointer becomes a function that returns the subtree to store back in that slot.
  - The tree headers (`avl_tree_t`, `bst_tree_t`, `treap_tree_t`, `trie_t`) are classes. Their
    methods update `root`, `size` and `nNodes`.
  - The source's loops are methods with loop invariants, proved equal to the functions. These
    loops are the predecessor walks, the BST insert walk, and the trie insert and search walks.
- `queue.dfy`: a class over an `array<int>` with `read_idx`, `write_idx` and `size`. Its ghost
  contents are the window of the buffer from the read slot.
- `stack.dfy`, `dll.dfy`: heap node objects. A ghost sequence lists the nodes from the head, and a
  second one lists their elements.

For each tree, the module states the invariants the design rests on and proves that every
operation preserves them:

- AVL: search order, cached height equal to 1 + the larger child height (-1 for an absent child),
  and a balance factor in {-1, 0, 1}.
- Treap: search order and max-heap priorities.
- Trie: per-node child counts and the node count.

Each operation's key-set effect is proved as well. Where the C departs from what it evidently
intends, the model follows the intent and a separate as-written member exhibits the departure (see
Findings). The AVL two-child removal goes further than the C's evident intent: it adds two repairs
that no line of avl.c performs (see `Avl.Unlink` under Left out and the Findings row for avl.c:400-404).

## Model

| member | source | states |
|---|---|---|
| Avl.NewNode | ABC_AVL/avl.c:55-72 | a new node is a leaf of height 0 holding exactly the given record, and is a sound AVL tree |
| Avl.AvlTree.constructor | ABC_AVL/avl.c:80-93 | a new tree has no root and size 0 |
| Avl.Fix | ABC_AVL/avl.c:129-136 | recomputing a height leaves children and record alone; Avl.ShapeHeight ties the result to the real height |
| Avl.TurnRight | ABC_AVL/avl.c:99-137 | the left child becomes the subtree root with the old root as its right child; in-order sequence and key set are kept; the old root's height is recomputed from its new children before the new root's |
| Avl.TurnLeft | ABC_AVL/avl.c:143-181 | the mirror image of TurnRight |
| Avl.TurnRightOrdered | ABC_AVL/avl.c:99-128 | a right rotation keeps search order |
| Avl.TurnLeftOrdered | ABC_AVL/avl.c:143-172 | a left rotation keeps search order |
| Avl.Rebalance | ABC_AVL/avl.c:225-253 | rebalancing never empties a node and keeps the in-order sequence and key set |
| Avl.RebalanceOrdered | ABC_AVL/avl.c:225-283 | rebalancing keeps search order |
| Avl.LeftHeavyShape | ABC_AVL/avl.c:231-241 | at balance -2: a single right rotation when the left child leans left or is level, a double rotation when it leans right; the result is balanced, and one lower unless the child was level |
| Avl.RightHeavyShape | ABC_AVL/avl.c:242-252 | the mirror image at balance +2 |
| Avl.RebalanceShape | ABC_AVL/avl.c:225-287 | a subtree off balance by at most two becomes sound; a balanced one is left unchanged; the height drops by at most one |
| Avl.InsertAt | ABC_AVL/avl.c:189-288 | the recursive insert hands back a non-empty subtree whose key set gains the key |
| Avl.InsertAtSpec | ABC_AVL/avl.c:189-288 | below a sound node the insert keeps order and leaves at most one level of growth that the caller's rotation can repair; the flag is set exactly when the key was present, and then nothing changed |
| Avl.InsertLeftStep | ABC_AVL/avl.c:225-253 | after inserting into the left child, rebalancing that child and recomputing the node's height keeps the insert's contract |
| Avl.InsertRightStep | ABC_AVL/avl.c:254-287 | the same after inserting into the right child |
| Avl.AttachLeft | ABC_AVL/avl.c:194-202 | a leaf attached in the empty left slot, with the height set directly (right child's height + 1, or 1), equals the recomputed height, keeps order, and the key was new |
| Avl.AttachRight | ABC_AVL/avl.c:207-215 | the mirror image in the right slot |
| Avl.InsertRootSpec | ABC_AVL/avl.c:290-332 | inserting keeps a sound AVL tree whose key set gains the key; the flag says the key was present, and then the tree is unchanged |
| Avl.InsertRoot | ABC_AVL/avl.c:290-332 | avl_tree_insert on the root slot: the tree is non-empty afterwards and its key set gains exactly the key; an empty tree never reports a duplicate (InsertRootSpec adds soundness) |
| Avl.AvlTree.Insert | ABC_AVL/avl.c:290-332 | size grows by one exactly when the key was absent; validity is kept |
| Avl.SpliceMax | ABC_AVL/avl.c:383-398 | the predecessor unlink cuts out the rightmost record: in-order sequence of the rest plus that record is the original; only a leaf is emptied |
| Avl.SplicePredecessor | ABC_AVL/avl.c:383-392 | the `while (it->right->right)` walk computes SpliceMax |
| Avl.Track | ABC_AVL/avl.c:469-473 | the repair pass after a predecessor unlink keeps in-order sequence and key set |
| Avl.TrackSound | ABC_AVL/avl.c:469-473 | on a sound subtree the repair pass changes nothing |
| Avl.TrackOrdered | ABC_AVL/avl.c:469-473 | the repair pass keeps search order |
| Avl.SpliceMaxOrdered | ABC_AVL/avl.c:383-398 | in a search tree the predecessor unlink removes the largest record and leaves a search tree of the others |
| Avl.SpliceMaxShape | ABC_AVL/avl.c:383-404 | after the unlink and the repair pass, the subtree is what a removal may hand back: at most one lower and off balance at most by two |
| Avl.Unlink | ABC_AVL/avl.c:355-405 | unlinking a node removes exactly its record from the key set (the two-child case with the repairs listed under Left out) |
| Avl.UnlinkOrdered | ABC_AVL/avl.c:355-405 | unlinking keeps order and removes exactly the node's record |
| Avl.UnlinkBothOrdered | ABC_AVL/avl.c:383-405 | a node with two children takes its predecessor's record; order is kept and exactly its own record is gone |
| Avl.RepairedOrdered | ABC_AVL/avl.c:383-403 | after the predecessor unlink and repair, the left subtree is a search tree of all its records but the largest, all below that record |
| Avl.Repaired | ABC_AVL/avl.c:400-404 | what replaces the left subtree after the predecessor unlink, the pass and the added top-of-spine rebalance (Left out, Avl.Unlink) keeps its keys and in-order sequence |
| Avl.UnlinkShape | ABC_AVL/avl.c:355-381 | a leaf or one-child unlink leaves a sound subtree, so the early return without rebalancing is safe |
| Avl.SettleUnlink | ABC_AVL/avl.c:355-405 | what is stored in the unlinked node's slot is sound, at most one lower, and holds every other record in order |
| Avl.RemoveBelow | ABC_AVL/avl.c:342-542 | the track-0 removal keeps the node and its record in place |
| Avl.RemoveBelowSpec | ABC_AVL/avl.c:342-542 | below a sound node, removal keeps order, takes out exactly the key, reports whether it was present, is unchanged when absent, and shrinks by at most one |
| Avl.RemoveLeftStep | ABC_AVL/avl.c:479-507 | after removing from the left child, rebalancing it and recomputing the height keeps the removal contract |
| Avl.RemoveRightStep | ABC_AVL/avl.c:508-537 | the same after removing from the right child |
| Avl.RemoveRootSpec | ABC_AVL/avl.c:549-628 | removing keeps a sound AVL tree holding every key but the removed one; the flag says the key was present; an absent key or empty tree leaves the tree unchanged |
| Avl.AvlTree.Remove | ABC_AVL/avl.c:549-628 | size drops by one exactly when the key was present; validity is kept |
| Avl.RemoveRoot | ABC_AVL/avl.c:549-628 | avl_tree_remove on the root slot: an empty tree is left empty with nothing found; a root holding the key loses exactly it; otherwise the tree stays non-empty (RemoveRootSpec adds soundness and the exact key set) |
| Avl.HasKeyAt | ABC_AVL/avl.c:669-679 | the lookup answers 0 or 1, and 1 only for a key the subtree holds |
| Avl.HasKeyAtComplete | ABC_AVL/avl.c:669-679 | in a search tree the lookup answers 1 exactly for the keys held |
| Avl.HasKey | ABC_AVL/avl.c:681-684 | 0 on an empty tree; 1 only for a held key |
| Avl.HasKeyComplete | ABC_AVL/avl.c:681-684 | in a search tree, 1 exactly for the keys held |
| Avl.AvlTree.Has | ABC_AVL/avl.c:681-684 | on a valid tree, 1 exactly when the key is held, else 0 |
| Avl.ShapeHeight | ABC_AVL/avl.c:129-136 | in a sound tree every cached height is the real height, and the tree is height-balanced |
| Avl.InorderKeys | ABC_AVL/avl.c:657-667 | the in-order traversal visits exactly the tree's keys |
| Avl.InorderIncreasing | ABC_AVL/avl.c:657-667 | a search tree's in-order traversal is strictly increasing |
| Avl.CountKeys | ABC_AVL/avl.c:331 | a search tree has as many nodes as keys, so `size` counts nodes |
| Avl.Byte | ABC_AVL/avl.c:29 | the `unsigned char` conversion stays below 256, keeps 0..255, and maps -1 to 255 |
| Avl.FixAsWritten | ABC_AVL/avl.c:46-48 | the byte-typed height update keeps children and record, and stays below 256 |
| Avl.FixAsWrittenAgrees | ABC_AVL/avl.c:46-48 | the byte update agrees with the intended one exactly when a node has no child or two; a node with one child gets height 0 |
| Avl.InsertTwoAsWritten | ABC_AVL/avl.c:299-330 | inserting 2 after 1 leaves a root of real height 1 that the byte update sets to 0 |
| Avl.RebalanceAsWritten | ABC_AVL/avl.c:479-537 | the as-written rebalancing keeps the in-order sequence |
| Avl.RebalanceAsWrittenAgrees | ABC_AVL/avl.c:490-536 | the as-written and intended rebalancing differ only when the heavy child has balance 0 |
| Avl.TrackAsWritten | ABC_AVL/avl.c:469-537 | the as-written pass, when it does not dereference NULL, keeps the in-order sequence and keys |
| Avl.RemoveBelowAsWritten | ABC_AVL/avl.c:342-542 | the as-written track-0 removal, when it does not dereference NULL, keeps the node and its record in place and never adds a key |
| Avl.UnlinkAsWritten | ABC_AVL/avl.c:355-405 | the as-written unlink, when it succeeds, removes exactly the node's record, and reports the two-child path exactly when both children exist |
| Avl.RemoveAsWritten | ABC_AVL/avl.c:549-628 | avl_tree_remove as written: an empty tree is left empty; when it does not dereference NULL it never adds a key |
| Avl.TrackAsWrittenFails | ABC_AVL/avl.c:469-472 | the as-written repair pass, started on records below the removed one, always dereferences NULL |
| Avl.RemoveRootAsWrittenFails | ABC_AVL/avl.c:586 | removing the record of a root with two children always dereferences NULL in the C |
| Avl.RemoveInnerAsWritten | ABC_AVL/avl.c:404 | removing 3 from 5(3(2(1), 4), 6(-, 7)) dereferences NULL in the C |
| Avl.RemoveInnerSound | ABC_AVL/avl.c:404 | that tree is a sound AVL tree |
| Avl.RemoveSoleAsWritten | ABC_AVL/avl.c:556-560 | removing the only record dereferences NULL in the C, while the model empties the tree |
| Avl.RemoveUnbalancedSound | ABC_AVL/avl.c:508-537 | the tree 4(2(1, 3), 5) is a sound AVL tree |
| Avl.RemoveUnbalancedAsWritten | ABC_AVL/avl.c:490-506 | removing 5 from it leaves the root off balance in the C |
| Avl.RemoveUnbalancedRotates | ABC_AVL/avl.c:490-506 | the model rotates that root right instead |
| Avl.UnlinkPassOnly | ABC_AVL/avl.c:383-404 | the two-child unlink with the C's order (height at 400-403 before the pass, no rotation at the top of the spine) removes exactly the node's record and keeps the in-order sequence of Unlink |
| Avl.SpineSound | ABC_AVL/avl.c:383-404 | the tree 5(3(2(1), 4), 7(6, 8)) is a sound AVL tree |
| Avl.SpineOrdered | ABC_AVL/avl.c:383-404 | that tree is a search tree |
| Avl.SpinePassResult | ABC_AVL/avl.c:383-404 | removing 5 from it with the pass alone leaves 4(3(2(1), -), 7(6, 8)), the pass changing nothing at the top of the spine |
| Avl.SpinePassUnsound | ABC_AVL/avl.c:479-541 | that result is at balance -1, so its rebalancing rotates nothing, and its left child is at balance -2: the tree is unsound |
| Bst.BstTree.constructor | ABC_AVL/bst.c:56-69 | a new tree has no root |
| Bst.Inserted | ABC_AVL/bst.c:76-101 | the insert yields a non-empty tree whose key set gains the key |
| Bst.InsertedOrdered | ABC_AVL/bst.c:84-98 | the insert keeps search order |
| Bst.InsertedPresent | ABC_AVL/bst.c:93 | in a search tree the insert leaves the tree unchanged exactly when the key is present |
| Bst.BstTree.Insert | ABC_AVL/bst.c:76-101 | the `while (root)` walk and the final slot write compute Inserted; an empty tree gets the new node as root |
| Bst.SpliceMax | ABC_AVL/bst.c:142-148 | the intended predecessor unlink: in-order sequence of the rest plus the cut record is the original |
| Bst.UnlinkPredecessor | ABC_AVL/bst.c:142-148 | the `while (tmp->right)` walk, writing to the slot that leads to `tmp`, computes SpliceMax |
| Bst.Removed | ABC_AVL/bst.c:110-157 | removal never adds a key |
| Bst.SpliceMaxOrdered | ABC_AVL/bst.c:142-152 | in a search tree the unlink removes the largest record and keeps order |
| Bst.RemoveSpec | ABC_AVL/bst.c:110-157 | removal keeps order, takes out exactly the key, and leaves every subtree unchanged when the key is absent |
| Bst.BstTree.Remove | ABC_AVL/bst.c:164-168 | the root slot takes the removed tree |
| Bst.InorderIncreasing | ABC_AVL/bst.c:197-206 | in-order traversal of a search tree is strictly increasing and visits exactly its keys |
| Bst.RemoveAsWrittenAgrees | ABC_AVL/bst.c:110-157 | wherever the as-written removal avoids its defect it computes Removed |
| Bst.RemoveAsWritten | ABC_AVL/bst.c:110-157 | __bst_tree_remove as written, None where the predecessor is the immediate left child; otherwise it never adds a key |
| Bst.RemoveRootAsWritten | ABC_AVL/bst.c:142-148 | removing 2 from 2(1, 3) loses 3 in the C; the model gives 1(-, 3) |
| Treap.Prio | treap/treap.c:125-133 | an absent child has priority -1 |
| Treap.TreapTree.constructor | treap/treap.c:52-64 | a new treap is empty |
| Treap.RotateRight | treap/treap.c:145-151 | the left child becomes the root with the old root as its right child; in-order sequence and keys kept |
| Treap.RotateLeft | treap/treap.c:163-169 | the mirror image |
| Treap.RotateRightOrdered | treap/treap.c:145-151 | a right rotation keeps search order |
| Treap.RotateLeftOrdered | treap/treap.c:163-169 | a left rotation keeps search order |
| Treap.Inserted | treap/treap.c:179-198 | insertion yields a non-empty treap whose keys gain the key |
| Treap.InsertOrdered | treap/treap.c:185-196 | insertion keeps search order |
| Treap.InsertHeap | treap/treap.c:181-196 | insertion with a priority in 0..999 keeps heap order and the priority range |
| Treap.InsertHeapLeft | treap/treap.c:186-190 | the grown left child, rotated up when it outranks its parent, keeps heap order |
| Treap.InsertHeapRight | treap/treap.c:191-195 | the mirror image |
| Treap.InsertPresent | treap/treap.c:185-197 | inserting a key already present changes nothing |
| Treap.InsertSpec | treap/treap.c:179-208 | insertion keeps a treap whose keys gain the key, unchanged when it was present |
| Treap.TreapTree.Insert | treap/treap.c:206-208 | the root slot takes the inserted treap |
| Treap.Deleted | treap/treap.c:216-248 | deletion never adds a key |
| Treap.DeleteOrdered | treap/treap.c:216-248 | deletion keeps order, removes exactly the key, and does nothing when it is absent |
| Treap.DeleteHeap | treap/treap.c:238-245 | rotating the higher-priority child up and recursing keeps heap order and the range |
| Treap.DeleteSpec | treap/treap.c:216-248 | deletion keeps a treap holding every key but the deleted one |
| Treap.TreapTree.Delete | treap/treap.c:256-258 | the root slot takes the deleted treap |
| Treap.DeleteAsWrittenAgrees | treap/treap.c:216-248 | in a search tree the as-written deletion succeeds exactly when the key is present, and then equals Deleted |
| Treap.DeleteAsWritten | treap/treap.c:216-248 | __treap_delete as written: reaching an empty slot is a NULL dereference; otherwise it never adds a key |
| Treap.DeleteAbsentAsWritten | treap/treap.c:218 | deleting an absent key dereferences NULL in the C, where the model changes nothing |
| Treap.GetKey | treap/treap.c:268-277 | a found record equals the key and is held |
| Treap.GetKeyComplete | treap/treap.c:268-277 | in a search tree the lookup finds a record exactly when the key is held |
| Treap.TreapTree.Get | treap/treap.c:286-288 | on a valid treap, a record exactly for held keys, and that record is the key |
| Trie.Empty | Trie/trie.c:1-9 | a new node has one slot per letter, all empty, no children, and is not a word end |
| Trie.EmptySpec | Trie/trie.c:1-9 | a new node is well formed, counts as one node, and finds no key |
| Trie.TrieTree.constructor | Trie/trie.c:11-24 | a new trie has a childless root and `nNodes == 1` |
| Trie.Inserted | Trie/trie.c:26-40 | insertion yields a node |
| Trie.Missing | Trie/trie.c:28-33 | the number of created nodes is at most the key length |
| Trie.InsertedShape | Trie/trie.c:28-36 | insertion keeps every node well formed (child counts) and adds exactly the missing nodes |
| Trie.InsertedLookup | Trie/trie.c:37-39 | after insertion the key finds its value and every other key finds what it found before |
| Trie.DescendStep | Trie/trie.c:29-35 | one letter of the walk: creating the missing slot first and continuing below it agrees with Inserted and counts the created node |
| Trie.TrieTree.Insert | Trie/trie.c:26-40 | the walk computes Inserted; `nNodes` rises by the created nodes; the key then finds the value |
| Trie.TrieTree.Search | Trie/trie.c:42-54 | the walk returns NULL on a missing slot or a non-word end, else the stored value |
| Trie.Lookup | Trie/trie.c:42-54 | the value a key finds: nothing in an empty slot, nothing for a letter outside the node's slots |
| Trie.Removed | Trie/trie.c:56-86 | a kept root is never freed |
| Trie.RemovedShape | Trie/trie.c:56-86 | removal keeps the trie well formed and frees exactly the nodes it reports |
| Trie.RemovedLookup | Trie/trie.c:56-86 | after removal the key finds nothing and every other key finds what it found before |
| Trie.RemovedSpec | Trie/trie.c:56-86 | RemovedShape and RemovedLookup together |
| Trie.RemovedAbsent | Trie/trie.c:69-84 | removing a key that finds nothing changes nothing |
| Trie.TrieTree.Remove | Trie/trie.c:88-90 | `nNodes` drops by the freed nodes; the key finds nothing; other keys are unaffected |
| Trie.RemoveRootAsWritten | Trie/trie.c:78-82 | inserting then removing "a" frees the root in the C |
| Trie.RemoveWordAsWritten | Trie/trie.c:78-82 | removing "ab" from {a, ab, b} loses the word "a" in the C, which the model keeps |
| Trie.RemoveAsWritten | Trie/trie.c:56-86 | __trie_remove as written frees at most one node per letter plus the last one, and freeing the subtree's own node counts it |
| Trie.TrieRemoveAsWritten | Trie/trie.c:88-90 | trie_remove as written: when the root survives, the trie keeps it as its root |
| Queue.CircularQueue.constructor | Queue_Stack/Queue.c:4-16 | a new queue has `max_size` zeroed slots, size 0, and both indices at 0 |
| Queue.CircularQueue.GetSize | Queue_Stack/Queue.c:22-24 | the number of queued elements |
| Queue.CircularQueue.IsEmpty | Queue_Stack/Queue.c:29-32 | 1 exactly when nothing is queued, else 0 |
| Queue.CircularQueue.Front | Queue_Stack/Queue.c:37-42 | NULL exactly when empty, else the oldest element |
| Queue.CircularQueue.Dequeue | Queue_Stack/Queue.c:49-57 | 0 on an empty queue with nothing changed; otherwise 1, the oldest element leaves, and the read index advances modulo `max_size` |
| Queue.CircularQueue.Enqueue | Queue_Stack/Queue.c:64-72 | 1 exactly when a slot is free: the element is appended and the write index advances modulo `max_size`; otherwise 0 and nothing changes |
| Queue.CircularQueue.Clear | Queue_Stack/Queue.c:77-81 | nothing queued, both indices 0 |
| Queue.Fifo | Queue_Stack/Queue.c:37-72 | two enqueues then a dequeue leave the second element at the front |
| Queue.ModWrap | Queue_Stack/Queue.c:52 | `%` on an index below twice the capacity is a single wrap |
| Queue.WindowPush | Queue_Stack/Queue.c:66 | writing the slot after the last element appends to the contents |
| Queue.WindowPop | Queue_Stack/Queue.c:51-52 | advancing the read slot drops the oldest element |
| Queue.WriteAdvance | Queue_Stack/Queue.c:67 | advancing the write index keeps it `size` slots after the read index |
| Queue.ReadAdvance | Queue_Stack/Queue.c:51-53 | advancing the read index past one element leaves the write index in place |
| Stack.Clamp | Queue_Stack/Stack.c:27-28 | a position past the end becomes the end |
| Stack.LinkedList.constructor | Queue_Stack/Stack.c:5-16 | a new list has no head and size 0 |
| Stack.LinkedList.GetSize | Queue_Stack/Stack.c:92-98 | the number of elements |
| Stack.LinkedList.AddNth | Queue_Stack/Stack.c:19-55 | the element goes in at the clamped position and the others keep their order |
| Stack.LinkedList.LinkIn | Queue_Stack/Stack.c:47-54 | a new node is linked between `prev` (or the head) and `curr` |
| Stack.LinkedList.RemoveNth | Queue_Stack/Stack.c:57-89 | NULL on an empty list; otherwise the node at the position clamped to `size - 1` is unlinked and returned |
| Stack.LinkedList.Unlink | Queue_Stack/Stack.c:80-86 | the node leaves the chain, its predecessor (or the head) taking its `next` |
| Stack.Stack.constructor | Queue_Stack/Stack.c:153-155 | a new stack is an empty list |
| Stack.Stack.GetSize | Queue_Stack/Stack.c:157-159 | the number of elements |
| Stack.Stack.IsEmpty | Queue_Stack/Stack.c:161-164 | 1 exactly when the stack is empty, else 0 |
| Stack.Stack.Peek | Queue_Stack/Stack.c:166-169 | NULL exactly when empty, else the top element |
| Stack.Stack.Pop | Queue_Stack/Stack.c:171-175 | an empty stack is unchanged; otherwise only the top element leaves |
| Stack.Stack.Push | Queue_Stack/Stack.c:177-179 | the new element becomes the top, so Peek returns it |
| Stack.Stack.Clear | Queue_Stack/Stack.c:181-185 | the loop ends with an empty stack |
| Dll.DoublyLinkedList.constructor | listaDubluInlantuita/lista_dublu_inlantuita.c:5-10 | a new list has no head and size 0 |
| Dll.DoublyLinkedList.GetSize | listaDubluInlantuita/lista_dublu_inlantuita.c:91-93 | the number of elements |
| Dll.DoublyLinkedList.GetNth | listaDubluInlantuita/lista_dublu_inlantuita.c:19-26 | on a non-empty list, the node at position `n % size` |
| Dll.DoublyLinkedList.AddNth | listaDubluInlantuita/lista_dublu_inlantuita.c:37-61 | the element goes in at position min(n, size) (the head when `n == 0` or the list is empty); the others keep their order; both link directions stay consistent |
| Dll.DoublyLinkedList.AddFirst | listaDubluInlantuita/lista_dublu_inlantuita.c:38-46 | a new head whose `next` is the old head, which gets it as `prev` |
| Dll.DoublyLinkedList.AddAfter | listaDubluInlantuita/lista_dublu_inlantuita.c:47-59 | the new node goes after the node at position `k - 1`, with all four links set |
| Dll.DoublyLinkedList.RemoveNth | listaDubluInlantuita/lista_dublu_inlantuita.c:71-85 | the intended removal: the node at position min(n, size - 1) is unlinked (head, tail or middle) and returned |
| Dll.RemoveNthAsWrittenSpec | listaDubluInlantuita/lista_dublu_inlantuita.c:71-85 | the C removes a node exactly when the list has two or more nodes and `n != size`, and then the same node as RemoveNth |
| Dll.RemoveNthAsWritten | listaDubluInlantuita/lista_dublu_inlantuita.c:71-85 | the position dll_remove_nth_node unlinks as written, when it does not fail, lies inside the list |
| Dll.Div10 | listaDubluInlantuita/lista_dublu_inlantuita.c:139 | C's truncating `/ 10`; between 0 and x on non-negative x |
| Dll.Mod10 | listaDubluInlantuita/lista_dublu_inlantuita.c:138 | C's `% 10`, matching Div10; a digit on non-negative x |
| Dll.SumValue | listaDubluInlantuita/lista_dublu_inlantuita.c:132-159 | the sum's digit list stands for value(a) + value(b) + carry |
| Dll.SumDigits | listaDubluInlantuita/lista_dublu_inlantuita.c:137-157 | the digits sum_lists appends number the longer list's length, plus at most one for the final carry |
| Dll.SumIsDigits | listaDubluInlantuita/lista_dublu_inlantuita.c:137-157 | with digit inputs and a carry of 0 or 1, every output digit is in 0..9 |
| Dll.SumLength | listaDubluInlantuita/lista_dublu_inlantuita.c:137-157 | the output is max(len a, len b) long, plus one exactly when a final carry remains |
| Dll.SumSpec | listaDubluInlantuita/lista_dublu_inlantuita.c:132-159 | the sum's value, digits and length together |
| Dll.SumFromSpec | listaDubluInlantuita/lista_dublu_inlantuita.c:137-157 | walking the lists by position gives the digits of the remaining lists |
| Dll.SumStep | listaDubluInlantuita/lista_dublu_inlantuita.c:138-140 | one column appends its digit and carries its quotient |
| Dll.SumColumns | listaDubluInlantuita/lista_dublu_inlantuita.c:135-157 | the three loops and the final carry produce exactly the sum's digits |
| Dll.FromDigits | listaDubluInlantuita/lista_dublu_inlantuita.c:141-156 | appending the digits one by one gives a valid new list holding them |
| Dll.Append | listaDubluInlantuita/lista_dublu_inlantuita.c:141 | `dll_add_nth_node(c, c->size, …)` puts the element last |
| Dll.SumLists | listaDubluInlantuita/lista_dublu_inlantuita.c:132-159 | the new list holds the sum's digits and stands for value(a) + value(b) |

## Left out

- Memory management is not modelled: `malloc`, `calloc`, `free`, the exit-on-failure `DIE` macro,
  and the `free_data` and `free_value_cb` callbacks. Removal drops a record from the abstract
  contents, and nothing is deallocated.
- Teardown code is not modelled. This covers `__avl_tree_free`, `__bst_tree_free`,
  `__treap_node_free` (which has no NULL base case), `__trie_free`, `q_free`, `ll_free`,
  `purge_stack` and `dll_free` (which reads `head->next` on an empty list). It is ownership
  plumbing only.
- Printing is not modelled. In-order traversal is the pure function `Inorder` instead.
  - This covers `avl_tree_print_inorder`, `bst_tree_print_inorder`, `ll_print_int`,
    `ll_print_string` and `dll_print_int`.
  - It also covers `treap_ascending_nodes` (treap.c:298-306), which prints and also has a
    `*num_keys++` that advances the pointer rather than the count.
  - The debug `printf("mata")` at avl.c:398 is dropped.
- Randomness is not modelled. `srand(time(NULL))` and `rand() % MAX_PRIORITY` become a parameter
  `p` of `Treap.TreapTree.Insert`, which requires it to lie in 0..999 as `rand() % 1000` does.
- Records are `int` under the natural order. The code's byte-level handling is not modelled:
  opaque records copied with `memcpy` of `data_size` bytes, and comparator function pointers.
  Copying the predecessor's record into a node appears as that node taking the record. The unused
  `max` of treap.c:116-123 is dropped.
- The model does not capture pointer sharing between tree nodes. Trees are values, and each
  routine returns the subtree that the C stores back through a pointer.
- Counters and the arithmetic on records are unbounded integers. The C's plain `int` and
  `unsigned int` widths are not modelled: in particular sum_lists adds two records and the carry as C
  `int`s (lines 138-139), which can overflow near INT_MAX, while `Dll.SumValue` holds for any
  integer records.
  The AVL's `unsigned char` height appears only in `Avl.FixAsWritten`.
- Avl.AvlTree.Remove, Avl.RemoveRootSpec: the contract is for the corrected removal. The C's
  removal dereferences NULL on several paths; `Avl.RemoveAsWritten` models it, and the Findings
  below exhibit each path.
- Avl.Unlink, Avl.Repaired: the two-child removal adds two repairs that no line of avl.c performs.
  It rebalances the top of the spine the predecessor left (the C's pass at 508-537 rebalances
  only each right child on that spine). It recomputes the unlinked node's height after the pass
  (the C does it before, at 400-403, so the stored height can be one too high).
  `Avl.UnlinkPassOnly` is the removal without these repairs, and `Avl.SpinePassUnsound` shows it
  leaving a sound tree unsound. SettleUnlink, RemoveRootSpec and AvlTree.Remove are proved for the
  repaired version.
- Avl.Rebalance: a heavy child with balance 0 gets a single rotation, where the C does nothing
  (see Findings).
- Treap.TreapTree.Delete: deleting an absent key leaves the treap unchanged, where the C
  dereferences NULL. `Treap.DeleteAsWritten` models the C.
- Trie.TrieTree.Remove: the root is never freed, and a node where another word ends is kept.
  `Trie.RemoveAsWritten` models the C.
- Trie keys are restricted to letters inside the alphabet (`InAlphabet`). The C indexes outside
  the child array otherwise.
- The trie's `alphabet` string, its `data_size` and the header's `size` field are not modelled.
  trie.c never maintains `size`. Overwriting a value leaks the old copy in the C; the model just
  replaces the value.
- Stack.Stack.Pop: the C discards the unlinked node without freeing it. The model has no memory
  to leak.
- The NULL-list checks of `ll_add_nth_node`, `ll_remove_nth_node` and `ll_get_size` (returning -1)
  are not modelled, since a list object always exists in the model. The `n < 0` test on an
  unsigned `n` can never succeed.
- Dll.DoublyLinkedList.AddNth is split the way its two branches are. `AddFirst` covers position 0
  or an empty list. `AddAfter` covers the rest, after `dll_get_nth_node(n - 1)`.
- Dll.DoublyLinkedList.GetNth requires a non-empty list, because the C divides by zero on an
  empty one.
- Dll.DoublyLinkedList.RemoveNth requires a non-empty list and returns the unlinked node, as the
  function's comment promises. The C has no `return` statement (lines 71, 85), and it fails on
  several inputs; `Dll.RemoveNthAsWritten` models which ones.
- The comments in lista_dublu_inlantuita.c describe a circular list. The code builds a list
  that is NULL-terminated in both directions, and the model follows the code.
- Dll.SumLists requires only the forward links of its inputs (`Forward`). These are all that
  `sum_lists` reads.
- Dll.SumLists computes the digit sequence first (`SumColumns`) and then builds the new list
  (`FromDigits`). The C appends each digit as it goes. The two orders give the same list, because
  the new list is fresh and no input node is changed.
- Dll.SumLists: the carry bound is not a separate contract. It stays in {0, 1} only for digit
  inputs; `Dll.SumIsDigits` and `Dll.SumLength` assume it and re-establish it at each column.

## Findings

| source | as written | input that shows it | evidently intended | confidence | as-written member | corrected member |
|---|---|---|---|---|---|---|
| ABC_AVL/avl.c:46-48 | `max` takes `unsigned char`, so the -1 of an absent child becomes 255, and 255 + 1 is stored as 0 in the byte height | insert 1, then 2: the root has one child and gets height 0 | height = 1 + max(child heights), with -1 for an absent child | not executed | Avl.InsertTwoAsWritten | Avl.ShapeHeight |
| ABC_AVL/avl.c:556-560 | the sole node is freed and the root set to NULL, then the rebalancing at line 599 reads `curr->left` through it | remove 5 from the tree holding only 5 | the tree becomes empty | not executed | Avl.RemoveSoleAsWritten | Avl.RemoveRootSpec |
| ABC_AVL/avl.c:470-471 | the `track = 1` pass tests `right` but recurses into `left`, and its rebalancing reads through an absent child | remove 3 from 5(3(2(1), 4), 6(-, 7)): the pass starts at node 1, which has no right child, and avl.c:512 reads `curr->left` through that NULL child | the pass walks the right spine the predecessor left and repairs heights on the way back | not executed | Avl.RemoveInnerAsWritten | Avl.SpliceMaxShape |
| ABC_AVL/avl.c:400-404 | even with the pass walking the right spine, only the right children on it are rebalanced: the top of the spine gets only a new height, and the unlinked node's height is computed before the pass | remove 5 from 5(3(2(1), 4), 7(6, 8)): 3(2(1), -) is left at balance -2, and the root's rebalancing, at balance -1, rotates nothing | the subtree that takes the unlinked node's left slot is sound afterwards | not executed | Avl.SpinePassUnsound | Avl.SettleUnlink |
| ABC_AVL/avl.c:490-506 | a heavy child with balance 0 triggers no rotation | remove 5 from 4(2(1, 3), 5) | a single right rotation, giving 2(1, 4(3)) | not executed | Avl.RemoveUnbalancedAsWritten | Avl.RebalanceShape |
| ABC_AVL/bst.c:142-148 | when the predecessor is the immediate left child, `parent->right = tmp->left` overwrites the node's right subtree | remove 2 from 2(1, 3) | the predecessor's left subtree takes the predecessor's own slot | not executed | Bst.RemoveRootAsWritten | Bst.RemoveSpec |
| treap/treap.c:218 | the record is compared before the slot is checked for NULL | delete 5 from the treap holding only 3 | an absent key leaves the treap unchanged | not executed | Treap.DeleteAbsentAsWritten | Treap.DeleteSpec |
| Trie/trie.c:78-82 | a parent is freed once its `n_children` reaches 0, even when a word ends at it | insert "a", "ab", "b", then remove "ab": "a" is lost | a node where a word ends is kept | not executed | Trie.RemoveWordAsWritten | Trie.RemovedLookup |
| Trie/trie.c:78-82 | the root is freed in the same way, leaving `trie->root` dangling | insert "a", then remove "a" | the root is always kept | not executed | Trie.RemoveRootAsWritten | Trie.Removed |
| listaDubluInlantuita/lista_dublu_inlantuita.c:72-75 | only `n > size` is clamped, and the head case writes `prev` of a NULL new head | a one-node list with n = 0; a three-node list with n = 3 | clamp to `size - 1`, and empty the list when its only node goes | not executed | Dll.RemoveNthAsWrittenSpec | Dll.DoublyLinkedList.RemoveNth |

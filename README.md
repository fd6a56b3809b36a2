# A verified model of the Azalea x64 kernel core

Azalea is a small x64 kernel. This project models its core in Dafny and proves properties of that model. The model covers:

- **Kernel library.** kl_string; the intrusive klib_list; the unbalanced and red-black search trees; kernel message passing; panic's hexadecimal formatter.
- **Memory management.** The slab allocator behind kmalloc and kfree; the physical page bitmap; the buddy allocator over virtual address ranges; x64 page-table entry encoding.
- **Processor.** The GDT and TSS descriptors, IDT gates and the thread cycle of the task manager.
- **System Tree.** Path splitting and the simple branch; the in-memory file and the pipe.
- **FAT filesystem.** The allocation table, files, directories and names.
- **Syscalls.** The checks of the read, write and seek system calls.
- **Devices.** The RTC's time decoding; the PS/2 scancode decoder; the generic keyboard and terminal; the PCI interrupt-link choice; xHCI root ports and TRB rings; the generic USB device core; the HID report-descriptor parser; a virtio split virtqueue.
- **Shell.** The simple shell's command tokenizer.

Each source file becomes one Dafny module, in a `.dfy` file named after it. `common.dfy` holds what they share: fixed-width unsigned integers as subsets of `int`, the kernel's `ERR_CODE` values, and an `Option` wrapper.

The model follows the form of each source file:

- Code that computes values is modelled as datatypes, functions and lemmas.
- Objects whose methods update their fields are modelled as classes. Their methods carry `modifies` clauses, and their state is tied to a specification function of it. Examples are the slab allocator, the FAT table, a FAT file and directory, the xHCI rings and the virtqueue.
- Loops stay loops, with their invariants.

Pointer-linked structures are modelled in one of two ways:

- **Classes.** klib_list and the thread cycle are classes with a ghost sequence of their nodes.
- **Values.** The search trees are value trees. A node pointer is a zipper: the node together with the chain of its parents.

Hardware and the rest of the kernel are given to the model as parameters: registers, device memory, the disk, the clock and other processes.

Where verification showed that the source does not do what its own comments or callers expect, the model keeps two definitions:

- an "as written" definition, with a lemma that exhibits the difference on a concrete input;
- a corrected definition, which the rest of the model uses and about which the properties are proved.

"## Findings" lists these pairs.

## Model

| member | source | states |
|---|---|---|
| KlString.Length | kernel/klib/data_structures/string.cpp:229-232 | the length counts the characters before the first NUL inside the buffer, or the whole buffer when it holds none |
| KlString.FromTextText | kernel/klib/data_structures/string.cpp:19-36 | a string built from NUL-free text has that text and its length |
| KlString.Equal | kernel/klib/data_structures/string.cpp:55-76 | two strings are equal exactly when their texts are equal (an absent buffer counts as empty text) |
| KlString.Concat | kernel/klib/data_structures/string.cpp:137-151 | the sum's text is the first text followed by the second, in a buffer of both lengths plus one |
| KlString.ConcatAsWritten | kernel/klib/data_structures/string.cpp:137-151 | as written: both texts in a buffer of both lengths plus one, whose last character is the one after the second text: its NUL, or what lies past an unterminated buffer |
| KlString.ConcatAsWrittenTerminated | kernel/klib/data_structures/string.cpp:148 | when the second buffer holds a NUL the as-written copy gives the corrected sum |
| KlString.ConcatUnterminatedAsWritten | kernel/klib/data_structures/string.cpp:148 | "a" plus the unterminated buffer "x", with 'y' past it, gives a sum without a NUL whose length is 3, where the corrected sum has length 2 |
| KlString.At | kernel/klib/data_structures/string.cpp:169-179 | a position up to and including length() is handed out as a reference at that offset; any later one refers to the shared out-of-bounds character |
| KlString.AtStaysInBuffer | kernel/klib/data_structures/string.cpp:169-179 | for a terminated string every reference handed out lies inside the buffer |
| KlString.AtPastBufferAsWritten | kernel/klib/data_structures/string.cpp:173-178 | (as written) an unterminated buffer hands out the position just past its end, and a string without a buffer hands out position 0 |
| KlString.AtCorrected | kernel/klib/data_structures/string.cpp:169-179 | corrected: a position is handed out exactly when it is inside the buffer and at most length(), so every reference lies inside the buffer |
| KlString.AtCorrectedAgrees | kernel/klib/data_structures/string.cpp:173 | the corrected and the as-written lookups differ exactly at the end of a buffer without a terminator |
| KlString.Substr | kernel/klib/data_structures/string.cpp:234-258 | a start past the end or a zero length gives the empty string; otherwise the text from start of length min(len, length - start) |
| KlString.Window | kernel/klib/data_structures/string.cpp:200-219 | comparing the buffer at p with the substring tells exactly whether the substring occurs at p |
| KlString.FirstIn | kernel/klib/data_structures/string.cpp:198-205 | the result is the first position in the range where the substring occurs, or npos when it occurs nowhere in the range |
| KlString.LastBelow | kernel/klib/data_structures/string.cpp:217-224 | the result is the last position below the limit where the substring occurs, or npos when there is none |
| KlString.Find | kernel/klib/data_structures/string.cpp:191-208 | as written: npos for a longer substring, else the first occurrence among positions below length - substring length (the last position is never tried) |
| KlString.FindLast | kernel/klib/data_structures/string.cpp:210-227 | as written: npos for a longer substring, else the last occurrence below length - substring length (the last position is never tried) |
| KlString.FindMissesLastPosition | kernel/klib/data_structures/string.cpp:198-217 | "a".find("a") and "a".find_last("a") give npos although "a" occurs at 0 |
| KlString.FindCorrected | kernel/klib/data_structures/string.cpp:191-208 | with every position tried, the result is the first occurrence, and npos exactly when the substring occurs nowhere |
| KlString.FindLastCorrected | kernel/klib/data_structures/string.cpp:210-227 | with every position tried, the result is the last occurrence, and npos exactly when the substring occurs nowhere |
| KlibList.ListItem.constructor | kernel/include/types/list.h:72-79 | a fresh item is in no list and carries nothing |
| KlibList.KList.constructor | kernel/include/types/list.h:60-65 | a new list root is empty and well formed |
| KlibList.Initialize | kernel/include/types/list.h:60-65 | the root forgets its items and is empty |
| KlibList.ItemInitialize | kernel/include/types/list.h:72-79 | the item is in no list and carries nothing |
| KlibList.AddTail | kernel/include/types/list.h:144-167 | the list stays well formed, the item is appended after the old items in order and becomes the tail, and it points at the list |
| KlibList.AddHead | kernel/include/types/list.h:174-197 | the list stays well formed, the item goes before the old items in order and becomes the head, and it points at the list |
| KlibList.AddAfter | kernel/include/types/list.h:88-108 | the new item goes straight after the given item, the rest keep their order, and the tail moves to it when the given item was the tail |
| KlibList.AddBefore | kernel/include/types/list.h:117-137 | the new item goes straight before the given item, the rest keep their order, and the head moves to it when the given item was the head |
| KlibList.InsertAt | kernel/include/types/list.h:88-137 | the order after an insertion: the items before the position, the new item at it, then the rest shifted by one |
| KlibList.Remove | kernel/include/types/list.h:203-233 | the item leaves the list, the others keep their order and the list stays well formed; the item's prev, next and list pointers are null and it keeps its object |
| KlibList.RemoveAt | kernel/include/types/list.h:203-233 | the order after a removal: the items before the position, then the rest shifted back by one |
| KlibList.IsEmpty | kernel/include/types/list.h:325-329 | empty exactly when head and tail are both null, which for a well-formed list means no items |
| KlibList.ItemIsInAnyList | kernel/include/types/list.h:336-340 | true exactly when the item points at a list, which every item of a well-formed list does |
| KlibList.ValidIsWalk | kernel/include/types/list.h:240-255 | the items of a well-formed list are exactly the walk along next pointers from its head |
| KlibList.WalkIsDistinct | kernel/include/types/list.h:240-255 | a walk that reaches null visits no item twice |
| KlibList.GetLength | kernel/include/types/list.h:240-255 | the length is the number of items the walk from the head visits |
| KlibList.IsValid | kernel/include/types/list.h:266-318 | as written, on the walk from the head taken as a lasso (a run of items that either reaches null or loops back): true exactly when the walk reaches null, head and tail are both null or both set, and every item points at the list, has matching prev/next neighbours, is head when it has no prev, is tail when it has no next, and carries an object; a walk that loops back past the head is always refused |
| KlibList.WalkIsLasso | kernel/include/types/list.h:279-315 | a walk that reaches null is exactly a lasso with no loop |
| KlibList.BackEdgeInconsistent | kernel/include/types/list.h:292-306 | a walk whose last item loops back to an item after the head fails the checks, because that item would need two predecessors |
| KlibList.ValidIsConsistent | kernel/include/types/list.h:266-318 | every well-formed list passes klib_list_is_valid |
| KlibList.ForeignPrevPassesCheck | kernel/include/types/list.h:286-295 | as written: a one-item list whose head has a foreign predecessor pointing back at it passes the check although the head is not linked as a first item |
| KlibList.IsValidCorrected | kernel/include/types/list.h:266-318 | with the head's predecessor also checked, on any lasso: the walk always ends, and the result is true exactly when the walk reaches null and the corrected consistency condition holds |
| KlibList.CorrectedRejectsLoops | kernel/include/types/list.h:286-306 | under the corrected checks every walk that loops back fails, the loop onto the head included |
| KlibList.CorrectedCheckIsExact | kernel/include/types/list.h:266-318 | a list is well formed if and only if its items are the walk from its head and every item passes the corrected checks |
| KlibList.AddHeadGrowsLength | kernel/include/types/list.h:174-197 | adding at the head grows the length that klib_list_get_length reports by one |
| BinaryTree.LeftChild | kernel/klib/data_structures/binary_tree.h:29-57 | following a left child pointer stays in the same tree, the node becoming the child's parent |
| BinaryTree.RightChild | kernel/klib/data_structures/binary_tree.h:29-57 | following a right child pointer stays in the same tree |
| BinaryTree.NodeSearch | kernel/klib/data_structures/binary_tree.h:323-361 | node_search stays in the same tree and gives null only from a null start |
| BinaryTree.SearchLands | kernel/klib/data_structures/binary_tree.h:323-361 | on an ordered tree the search ends at a node with key k iff k is stored, and that node holds k's value |
| BinaryTree.MissAt | kernel/klib/data_structures/binary_tree.h:323-361 | a search that stops at a missing child on k's side proves k absent |
| BinaryTree.Contains | kernel/klib/data_structures/binary_tree.h:165-169 | on an ordered tree, contains is true iff the key is stored |
| BinaryTree.Search | kernel/klib/data_structures/binary_tree.h:176-182 | on an ordered tree, search returns the value stored with the key, which must be present |
| BinaryTree.FindLeftLeaf | kernel/klib/data_structures/binary_tree.h:203-213 | the leftmost node below the start: it has no left child and nothing of the start's subtree comes before it |
| BinaryTree.FindRightLeaf | kernel/klib/data_structures/binary_tree.h:220-230 | the rightmost node below the start: it has no right child and nothing of the start's subtree comes after it |
| BinaryTree.RemoveNode | kernel/klib/data_structures/binary_tree.h:237-298 | remove_node drops exactly the node's entry from the in-order sequence |
| BinaryTree.TwoChildRemovalCopiesNeighbour | kernel/klib/data_structures/binary_tree.h:242-261 | a node with two children takes the in-order successor's entry when left_side_last is set and the predecessor's otherwise, the other side untouched |
| BinaryTree.PlaceNew | kernel/klib/data_structures/binary_tree.h:108-138 | hanging a new node where the walk fell off keeps the tree ordered and adds the key |
| BinaryTree.Overwrite | kernel/klib/data_structures/binary_tree.h:103-107 | overwriting the value of an equal key keeps the order and updates that key only |
| BinaryTree.RemoveAt | kernel/klib/data_structures/binary_tree.h:237-298 | unlinking a node keeps the tree ordered and removes exactly its key |
| BinaryTree.DebugCheckNode | kernel/klib/data_structures/binary_tree.h:370-406 | debug_check_node as written: a node with a missing child is compared with its direct parent only |
| BinaryTree.AsWrittenCheckPassesDisorder | kernel/klib/data_structures/binary_tree.h:384-396 | the check as written passes the tree 5(3(-, 7), -), which is not a search tree |
| BinaryTree.DebugCheckNodeCorrected | kernel/klib/data_structures/binary_tree.h:370-406 | the check comparing each node with a missing child against every ancestor |
| BinaryTree.CorrectedCheckIsExact | kernel/klib/data_structures/binary_tree.h:370-406 | the corrected check accepts exactly the trees whose in-order keys never decrease |
| BinaryTree.BinTree.constructor | kernel/klib/data_structures/binary_tree.h:59-63 | an empty tree with left_side_last clear |
| BinaryTree.BinTree.Insert | kernel/klib/data_structures/binary_tree.h:83-146 | insert keeps the tree ordered and maps the key to the value, all other keys unchanged |
| BinaryTree.BinTree.Remove | kernel/klib/data_structures/binary_tree.h:152-158 | remove of a present key keeps the tree ordered and removes exactly that key |
| RedBlackTree.Up | kernel/klib/data_structures/red_black_tree.h:40-72 | following a parent pointer stays in the same tree, one level up |
| RedBlackTree.BlackHeight | kernel/klib/data_structures/red_black_tree.h:907-925 | the black length of a tree, counting the null leaf, is at least 1 |
| RedBlackTree.PlugSound | kernel/klib/data_structures/red_black_tree.h:40-72 | a sound subtree under ancestors that fit its black height and colour makes a sound whole tree |
| RedBlackTree.PlugSoundInverse | kernel/klib/data_structures/red_black_tree.h:40-72 | every subtree of a sound tree is sound and its ancestors fit around it |
| RedBlackTree.RotateLeft | kernel/klib/data_structures/red_black_tree.h:426-462 | rotate_left keeps the in-order entries |
| RedBlackTree.RotateRight | kernel/klib/data_structures/red_black_tree.h:467-502 | rotate_right keeps the in-order entries |
| RedBlackTree.RotationsInverse | kernel/klib/data_structures/red_black_tree.h:426-502 | rotate_right undoes rotate_left |
| RedBlackTree.NodeSearch | kernel/klib/data_structures/red_black_tree.h:799-837 | node_search stays in the same tree and gives null only from a null start |
| RedBlackTree.SearchLands | kernel/klib/data_structures/red_black_tree.h:799-837 | on an ordered tree the search ends at a node with key k iff k is stored, and that node holds k's value |
| RedBlackTree.MissAt | kernel/klib/data_structures/red_black_tree.h:799-837 | a search that stops at a missing child on k's side proves k absent |
| RedBlackTree.Contains | kernel/klib/data_structures/red_black_tree.h:286-290 | on an ordered tree, contains is true iff the key is stored |
| RedBlackTree.Search | kernel/klib/data_structures/red_black_tree.h:297-303 | on an ordered tree, search returns the value stored with the present key |
| RedBlackTree.RecolorUpSound | kernel/klib/data_structures/red_black_tree.h:203-217 | red parent and red uncle: recolouring keeps the entries and the fix-up invariant, two levels up |
| RedBlackTree.RecolorUp | kernel/klib/data_structures/red_black_tree.h:203-217 | recolouring moves the node looked at two levels up, to the grandparent |
| RedBlackTree.RotationFixSound | kernel/klib/data_structures/red_black_tree.h:218-256 | red parent and black uncle: the one or two rotations with recolouring give a red-black tree with the same entries |
| RedBlackTree.FixAfterInsert | kernel/klib/data_structures/red_black_tree.h:181-257 | the fix-up loop after a new red node ends in a red-black tree with the same entries |
| RedBlackTree.PaintBlackSound | kernel/klib/data_structures/red_black_tree.h:186-193 | painting the root black keeps a sound tree sound and makes it red-black |
| RedBlackTree.FindSibling | kernel/klib/data_structures/red_black_tree.h:405-421 | the other child of the parent; null for a null node or the root |
| RedBlackTree.UncleIsParentsSibling | kernel/klib/data_structures/red_black_tree.h:376-396 | find_uncle is the parent's sibling |
| RedBlackTree.FindSiblingAsWritten | kernel/klib/data_structures/red_black_tree.h:405-421 | find_sibling as written agrees with the sibling whenever its assertion holds |
| RedBlackTree.FindSiblingRejectsRightChild | kernel/klib/data_structures/red_black_tree.h:412 | the assertion fails for a right child whose parent has a right child, that is for every right child |
| RedBlackTree.FindLeftLeaf | kernel/klib/data_structures/red_black_tree.h:340-350 | the leftmost node below the start, nothing of the subtree before it |
| RedBlackTree.FindRightLeaf | kernel/klib/data_structures/red_black_tree.h:357-367 | the rightmost node below the start, nothing of the subtree after it |
| RedBlackTree.RedNephewLeftSound | kernel/klib/data_structures/red_black_tree.h:599-774 | the red-nephew case after a left deletion restores the black height with the node's colour |
| RedBlackTree.RedNephewRightSound | kernel/klib/data_structures/red_black_tree.h:599-774 | the mirror case after a right deletion |
| RedBlackTree.RedNephewLeft | kernel/klib/data_structures/red_black_tree.h:624-656 | the red-nephew case after a left deletion, with its extra rotation when only the near nephew is red, keeps the in-order entries |
| RedBlackTree.RedNephewRight | kernel/klib/data_structures/red_black_tree.h:657-689 | the mirror case after a right deletion keeps the in-order entries |
| RedBlackTree.BlackSiblingRecolor | kernel/klib/data_structures/red_black_tree.h:694-710 | recolouring an all-black sibling red and the node black keeps the in-order entries |
| RedBlackTree.RedSiblingRotate | kernel/klib/data_structures/red_black_tree.h:733-767 | the red-sibling rotation keeps the whole tree's entries and moves the node one level down, on the side the deletion was on |
| RedBlackTree.BlackSiblingDone | kernel/klib/data_structures/red_black_tree.h:599-774 | an all-black sibling under a red node or at the root: recolouring finishes the rebalance |
| RedBlackTree.BlackSiblingUp | kernel/klib/data_structures/red_black_tree.h:599-774 | an all-black sibling under a black node: the deficit moves up to the parent |
| RedBlackTree.RedSiblingCase | kernel/klib/data_structures/red_black_tree.h:599-774 | a red sibling: after the rotation the node is red with a black sibling |
| RedBlackTree.RebalanceAfterDelete | kernel/klib/data_structures/red_black_tree.h:599-774 | rebalance_after_delete ends in a red-black tree with the same entries |
| RedBlackTree.RemoveLinked | kernel/klib/data_structures/red_black_tree.h:543-588 | unlinking a node with at most one child, its child painted black and the tree rebalanced when both were black, gives a red-black tree without the node's entry |
| RedBlackTree.RemoveNode | kernel/klib/data_structures/red_black_tree.h:509-591 | remove_node drops exactly the node's entry and the colour rules hold afterwards |
| RedBlackTree.PlaceNew | kernel/klib/data_structures/red_black_tree.h:141-178 | hanging a new red node where the walk fell off keeps the order and adds the key |
| RedBlackTree.NewLeafInv | kernel/klib/data_structures/red_black_tree.h:143-172 | a new red leaf below a red-black tree satisfies the fix-up loop's invariant |
| RedBlackTree.Overwrite | kernel/klib/data_structures/red_black_tree.h:136-140 | overwriting an equal key's value keeps the order and updates that key only |
| RedBlackTree.RemoveAt | kernel/klib/data_structures/red_black_tree.h:509-591 | dropping a node's entry keeps the order and drops exactly its key |
| RedBlackTree.VerifyBlackLength | kernel/klib/data_structures/red_black_tree.h:907-925 | debug_verify_black_length succeeds iff every path has the same black length, and returns it |
| RedBlackTree.Uncoloured | kernel/klib/data_structures/red_black_tree.h:40-72 | the tree without colours has the same in-order entries |
| RedBlackTree.DebugCheckNode | kernel/klib/data_structures/red_black_tree.h:846-898 | debug_check_node as written: a node with a missing child is compared with its direct parent only, plus the colour rules |
| RedBlackTree.AsWrittenCheckPassesDisorder | kernel/klib/data_structures/red_black_tree.h:846-898 | the check as written passes 5(3(-, 7), -), which is not a search tree |
| RedBlackTree.DebugCheckNodeCorrected | kernel/klib/data_structures/red_black_tree.h:846-898 | the check comparing each node with a missing child against every ancestor |
| RedBlackTree.CheckedCorrectedSplit | kernel/klib/data_structures/red_black_tree.h:846-898 | the corrected check is the plain search tree's corrected check plus the two colour rules |
| RedBlackTree.CorrectedCheckIsExact | kernel/klib/data_structures/red_black_tree.h:846-898 | the corrected check accepts exactly the trees with non-decreasing in-order keys, a black root and no red node with a red child |
| RedBlackTree.DebugVerifyTree | kernel/klib/data_structures/red_black_tree.h:325-329 | debug_verify_tree passes iff the check as written passes and every path has the same black length |
| RedBlackTree.InsertOutcomeAsWritten | kernel/klib/data_structures/red_black_tree.h:113-267 | as written, insert of a present key fails the null check in find_uncle; otherwise number_of_leaves grows by one |
| RedBlackTree.InsertOfPresentKeyFails | kernel/klib/data_structures/red_black_tree.h:136-185 | inserting key 1 into the tree holding 1 reaches the failing null check |
| RedBlackTree.LeavesAfterRemoveAsWritten | kernel/klib/data_structures/red_black_tree.h:541-590 | as written the two-child case decrements number_of_leaves twice, every other case once |
| RedBlackTree.TwoChildRemovalMiscounts | kernel/klib/data_structures/red_black_tree.h:518-590 | removing the root of 2(1, 3) leaves two keys but a count of 1 |
| RedBlackTree.ClearedTreeKeepsCount | kernel/klib/data_structures/red_black_tree.h:91-98 | clear_tree removes the nodes but leaves number_of_leaves unchanged |
| RedBlackTree.LeavesAfterClearAsWritten | kernel/klib/data_structures/red_black_tree.h:91-98 | as written, number_of_leaves after clear_tree is the count from before |
| RedBlackTree.WalkDown | kernel/klib/data_structures/red_black_tree.h:132-179 | insert's walk ends at the node holding k or the node whose missing child k belongs in, where node_search ends too |
| RedBlackTree.RbTree.constructor | kernel/klib/data_structures/red_black_tree.h:77-79 | an empty tree with number_of_leaves 0 and left_side_last clear |
| RedBlackTree.RbTree.NumLeaves | kernel/klib/data_structures/red_black_tree.h:103-106 | num_leaves is the number of keys stored |
| RedBlackTree.RbTree.GetRootNodeKey | kernel/klib/data_structures/red_black_tree.h:310-318 | succeeds iff the tree is not empty, giving the root node's key, which is stored in the tree |
| RedBlackTree.RbTree.ClearTree | kernel/klib/data_structures/red_black_tree.h:91-98 | clear_tree empties the tree, with the count reset |
| RedBlackTree.RbTree.Insert | kernel/klib/data_structures/red_black_tree.h:113-267 | insert keeps the red-black rules and the order, maps the key to the value, and counts a new key |
| RedBlackTree.RbTree.Remove | kernel/klib/data_structures/red_black_tree.h:273-279 | remove of a present key keeps the red-black rules and the order, removes exactly that key and counts one fewer |
| KernelMessages.MessageRegistry.constructor | kernel/klib/synch/kernel_messages.cpp:34-60 | the registry starts with no names and no numbers |
| KernelMessages.MessageRegistry.RegisterMsgId | kernel/klib/synch/kernel_messages.cpp:52-83 | a name or number already registered is ALREADY_EXISTS and changes nothing; otherwise both directions gain the pair, keeping the two maps inverse to each other |
| KernelMessages.MessageRegistry.GetMsgId | kernel/klib/synch/kernel_messages.cpp:92-118 | a registered name gives its number, which maps back to the name; an unknown name is NOT_FOUND |
| KernelMessages.MessageRegistry.GetMsgName | kernel/klib/synch/kernel_messages.cpp:127-153 | a registered number gives its name, which maps back to the number; an unknown number is NOT_FOUND |
| KernelMessages.ProcessMailbox.constructor | kernel/klib/synch/kernel_messages.cpp:164-198 | a process does not accept messages until it registers |
| KernelMessages.ProcessMailbox.RegisterProcess | kernel/klib/synch/kernel_messages.cpp:164-198 | the first registration starts an empty queue with nothing outstanding; a second one is INVALID_OP and changes nothing |
| KernelMessages.ProcessMailbox.SendToProcess | kernel/klib/synch/kernel_messages.cpp:228-254 | a process that does not accept messages refuses with SYNC_MSG_NOT_ACCEPTED; otherwise the message joins the back of its queue |
| KernelMessages.ProcessMailbox.RetrieveNextMsg | kernel/klib/synch/kernel_messages.cpp:267-313 | with a message already outstanding the call is SYNC_MSG_INCOMPLETE; with an empty queue SYNC_MSG_QUEUE_EMPTY; otherwise the oldest message is handed out and becomes outstanding |
| KernelMessages.ProcessMailbox.RetrieveCurMsg | kernel/klib/synch/kernel_messages.cpp:326-365 | the outstanding message is handed out again; with none outstanding the call is SYNC_MSG_MISMATCH |
| KernelMessages.ProcessMailbox.MsgComplete | kernel/klib/synch/kernel_messages.cpp:377-423 | only the outstanding message can be completed: it leaves the queue and the caller's header comes back with contents and ID cleared; anything else is SYNC_MSG_MISMATCH and changes nothing |
| Panic.HexDigitInverse | kernel/klib/panic/panic.cpp:96-103 | every nibble maps to an upper-case hexadecimal digit that reads back as the nibble |
| Panic.ParseHexDigits | kernel/klib/panic/panic.cpp:91-108 | the n digits written for a value below 16^n are hexadecimal digits and read back as the value |
| Panic.HexTextRoundTrip | kernel/klib/panic/panic.cpp:91-108 | the sixteen digits written after "0x" read back as the original 64-bit value |
| Panic.HexTextIsUpperHex | kernel/klib/panic/panic.cpp:96-103 | every character after the "0x" prefix is an upper-case hexadecimal digit |
| Panic.PanicConvertValue | kernel/klib/panic/panic.cpp:91-108 | the buffer's first 18 characters become "0x" and the sixteen digits of the value, most significant first; the rest of the buffer is untouched |
| Gdt.CalcReqLen | kernel/processor/x64/gdt-x64.cpp:113-126 | the GDT length is 48 bytes plus 16 per processor, whenever that fits the 16-bit result |
| Gdt.CalcTssDescOffset | kernel/processor/x64/gdt-x64.cpp:267-280 | processor n's TSS descriptor sits at 48 + 16n, whenever that fits 16 bits |
| Gdt.TssDescriptorsFit | kernel/processor/x64/gdt-x64.cpp:113-126 | every processor's descriptor lies after the fixed part and inside the GDT, and two processors' descriptors do not overlap |
| Gdt.GdtPointerDecode | kernel/processor/x64/gdt-x64.cpp:90-106 | the pseudo-descriptor holds length - 1 in its first two bytes and the GDT address in the next eight |
| Gdt.PopulatePointer | kernel/processor/x64/gdt-x64.cpp:90-106 | the first ten bytes of the pointer table become that pseudo-descriptor and nothing after them changes |
| Gdt.TssDescriptorDecode | kernel/processor/x64/gdt-x64.cpp:183-219 | the descriptor is a present, DPL-0, available 64-bit TSS of limit 103 with byte granularity, whose scattered base bytes give back the segment address and whose last four bytes are zero |
| Gdt.TssSegmentDecode | kernel/processor/x64/gdt-x64.cpp:171-237 | the TSS holds RSP0 at offset 4, IST1 at 36 and IST2 at 44, and zero everywhere else |
| Gdt.GenerateTss | kernel/processor/x64/gdt-x64.cpp:158-240 | a fresh TSS segment holds the three stack pointers and the 16 descriptor bytes at the offset are that TSS's descriptor; no other GDT byte changes |
| Gdt.RecreateGdt | kernel/processor/x64/gdt-x64.cpp:40-81 | the new GDT has the computed length, starts with the initial table, and holds each processor's TSS descriptor at that processor's offset, and the pointer table describes it |
| Idt.GateDecode | kernel/processor/x64/interrupts-x64.cpp:131-173 | the twelve bytes written decode to a present trap gate (type 0xF) through selector 0x0008 whose offset is the handler address, whose DPL is the requested level and whose IST is the requested stack |
| Idt.GateOffset | kernel/processor/x64/interrupts-x64.cpp:152-168 | the handler address split into its low, middle and high parts reads back as the full 64-bit address |
| Idt.GateSelector | kernel/processor/x64/interrupts-x64.cpp:137-162 | the gate's segment selector is the kernel code segment 0x0008 |
| Idt.GateType | kernel/processor/x64/interrupts-x64.cpp:138-164 | the type word is 0x8F00, or 0xEF00 for DPL 3, or-ed with the IST number |
| Idt.ConfigureIdtEntry | kernel/processor/x64/interrupts-x64.cpp:131-173 | bytes [16n, 16n+12) of the table become the gate bytes; every other byte, including the top four of the same entry, is unchanged |
| Idt.MarkReservedInterrupts | kernel/processor/x64/interrupts-x64.cpp:95-106 | every vector below PROC_IRQ_BASE + PROC_NUM_IRQS is reserved, exactly the IRQ vectors among them get is_irq, and all later vectors are untouched |
| Idt.ConfigPlainHandlers | kernel/processor/x64/interrupts-x64.cpp:174-437 | on a zeroed table, every vector's entry is the gate of its plain handler with DPL 0 and IST 1 |
| Idt.InstallSpecialHandlers | kernel/processor/x64/interrupts-x64.cpp:57-93 | the exception and IRQ handlers overwrite their vectors' gates (NMI on IST 2, the rest on IST 1) and every other vector keeps its plain gate |
| Idt.GateAfterStep | kernel/processor/x64/interrupts-x64.cpp:57-93 | installing one special handler changes only that handler's vector |
| Idt.ConfigureIdt | kernel/processor/x64/interrupts-x64.cpp:51-111 | after setup every vector holds its final gate (the special handler where there is one, else the plain one) and the reserved/IRQ marks are set |
| TaskManager.ThreadCycle.constructor | kernel/processor/task_manager.cpp:67 | the cycle starts empty |
| TaskManager.ThreadCycle.Add | kernel/processor/task_manager.cpp:440-460 | into an empty cycle the thread goes as a loop of one; otherwise it goes straight after the start of the cycle; the cycle stays a single ring |
| TaskManager.ThreadCycle.Remove | kernel/processor/task_manager.cpp:467-506 | the thread leaves the ring and the others keep their order; the start moves off it, becoming null only when it was the last thread; the thread's own next pointer is untouched |
| TaskManager.FollowAlongRing | kernel/processor/task_manager.cpp:218-362 | following next pointers from the i-th thread visits the ring in order and wraps to the start at its end |
| TaskManager.SingleCycle | kernel/processor/task_manager.cpp:218-362 | from the start of the cycle the walk meets every thread once, in ring order, and returns to the start after all of them |
| SlabAllocator.BitmapCovers | kernel/klib/memory/memory.cpp:489-493 | the rounded bitmap size is a whole number of 8-byte words with a bit for every chunk and at least one to spare |
| SlabAllocator.SlabLayout | kernel/klib/memory/memory.cpp:79-83 | for each chunk size the first chunk is aligned to its size, lies past the header and bitmap, and the chunks fill the rest of the 2MB page exactly |
| SlabAllocator.ChunkPlacement | kernel/klib/memory/memory.cpp:588-591 | every chunk lies inside its slab past the bitmap, is aligned to its size, is never page aligned, and kfree's offset arithmetic recovers its number |
| SlabAllocator.FreeChunkExists | kernel/klib/memory/memory.cpp:609-624 | a slab that is not full has a free chunk below NUM_CHUNKS_PER_SLAB |
| SlabAllocator.FullExactly | kernel/klib/memory/memory.cpp:609-624 | the allocated chunks number NUM_CHUNKS_PER_SLAB exactly when all of them are allocated |
| SlabAllocator.MaskAdvance | kernel/klib/memory/memory.cpp:549-566 | in a word with a clear bit, the moving mask passes a set bit without falling off the end (the assertion moving_bit_mask != 1 holds) |
| SlabAllocator.XorClears | kernel/klib/memory/memory.cpp:363-367 | toggling the set bit 1 << (63 - n % 64) with xor clears it |
| SlabAllocator.LowMaskIsMask | kernel/klib/memory/memory.cpp:360-363 | kfree's mask 1 << (63 - k) is the allocator's mask 0x8000000000000000 >> k |
| SlabAllocator.Slab.constructor | kernel/klib/memory/memory.cpp:469-502 | allocate_new_slab: a zero allocation count and an all-clear bitmap, so no chunk is allocated |
| SlabAllocator.Slab.AllocateChunk | kernel/klib/memory/memory.cpp:513-598 | allocate_chunk_from_slab on a slab that is not full: the lowest free chunk becomes allocated, its address is returned and the count grows by one |
| SlabAllocator.Slab.SkipFullWords | kernel/klib/memory/memory.cpp:539-574 | the outer loop stops at the word holding the lowest free chunk, every chunk before it allocated |
| SlabAllocator.Slab.FirstClearBit | kernel/klib/memory/memory.cpp:545-566 | the inner loop stops at the first clear bit of that word from the top, gives its mask, and counts the chunk index up to it, which is the lowest free chunk; it changes no bit (setting it is SetBit's work) |
| SlabAllocator.Slab.SetBit | kernel/klib/memory/memory.cpp:556 | setting the found bit adds exactly that chunk to the allocated set |
| SlabAllocator.Slab.ClearBit | kernel/klib/memory/memory.cpp:359-367 | toggling the chunk's set bit removes exactly that chunk from the allocated set |
| SlabAllocator.Slab.FreeChunk | kernel/klib/memory/memory.cpp:351-371 | the bitmap half of kfree: the chunk's bit is cleared and the count drops by one |
| SlabAllocator.Slab.IsFull | kernel/klib/memory/memory.cpp:609-624 | slab_is_full is true iff every chunk is allocated, iff the count equals NUM_CHUNKS_PER_SLAB |
| SlabAllocator.Slab.IsEmpty | kernel/klib/memory/memory.cpp:635-646 | slab_is_empty is true iff no chunk is allocated |
| SlabAllocator.ScanAsWritten | kernel/klib/memory/memory.cpp:539-579 | the search as written returns the first clear bit at or after its start, every bit before it set |
| SlabAllocator.FullSlabScanAsWritten | kernel/klib/memory/memory.cpp:576-591 | on a full slab the search stops at NUM_CHUNKS_PER_SLAB, passes the assertion first_free_idx <= NUM_CHUNKS_PER_SLAB, and hands out the first address of the next page |
| Kmalloc.SizeClassIsSmallest | kernel/klib/memory/memory.cpp:159-167 | the size class is the smallest whose chunks hold the request, and there is none exactly when the request exceeds the largest chunk |
| Kmalloc.SlabIndex | kernel/klib/memory/memory.cpp:159-167 | kmalloc's search loop finds that size class |
| Kmalloc.HugeRequestGetsNoPages | kernel/klib/memory/memory.cpp:135-172 | a request of 2^53 bytes gives a page count that truncates to 0 in the uint32_t required_pages |
| Kmalloc.LargePagesAsWritten | kernel/klib/memory/memory.cpp:135-172 | as written, the page count is the exact one while it fits 32 bits, and smaller than needed exactly when it does not |
| Kmalloc.LargePagesFewest | kernel/klib/memory/memory.cpp:172 | the pages of a large allocation are the fewest that hold it |
| Kmalloc.LargePagesFit | kernel/klib/memory/memory.cpp:135-172 | below 0xFFFFFFFF pages the stored count is not truncated |
| Kmalloc.Without | kernel/klib/memory/memory.cpp:202 | klib_list_remove of a slab's item leaves the other slabs in the list and keeps them distinct |
| Kmalloc.Added | kernel/klib/memory/memory.cpp:230 | klib_list_add_head or klib_list_add_tail puts the slab in the list and keeps the slabs distinct |
| Kmalloc.AttachKeepsCoherent | kernel/klib/memory/memory.cpp:228-235 | filing a slab that is in no list into a list its fullness matches restores the allocator's bookkeeping |
| Kmalloc.DetachKeepsCoherent | kernel/klib/memory/memory.cpp:196-213 | taking a slab out of its list keeps the bookkeeping, with that slab the only one in no list |
| Kmalloc.MoveKeepsCoherent | kernel/klib/memory/memory.cpp:389-395 | moving a slab from its list to the tail of a list it fits keeps the bookkeeping |
| Kmalloc.DropKeepsCoherent | kernel/klib/memory/memory.cpp:378-381 | forgetting the slab that is in no list keeps the bookkeeping |
| Kmalloc.LargeKeepsCoherent | kernel/klib/memory/memory.cpp:181 | recording or forgetting page-aligned large allocations keeps the bookkeeping |
| Kmalloc.FreeListsFrom | kernel/klib/memory/memory.cpp:439-449 | after i iterations of the initialisation loop, each of the first i free lists holds its one new slab and the rest are empty |
| Kmalloc.Allocator.constructor | kernel/klib/memory/memory.cpp:414-460 | init_allocator_system: one empty slab in each free list, the partial and full lists empty, no large allocations, and the bookkeeping holds |
| Kmalloc.Allocator.FileNewSlab | kernel/klib/memory/memory.cpp:445-448 | one iteration of the initialisation loop files a new slab for size class i at the tail of its free list |
| Kmalloc.Allocator.NewSlab | kernel/klib/memory/memory.cpp:218 | allocate_new_slab: a fresh empty slab on the given page, in no list |
| Kmalloc.Allocator.Attach | kernel/klib/memory/memory.cpp:230 | klib_list_add_head or klib_list_add_tail of a slab in no list into a list its fullness matches |
| Kmalloc.Allocator.Detach | kernel/klib/memory/memory.cpp:202 | klib_list_remove of a slab from its list |
| Kmalloc.Allocator.Drop | kernel/klib/memory/memory.cpp:380 | mem_deallocate_pages of a slab in no list: the allocator forgets it |
| Kmalloc.Allocator.PickSlab | kernel/klib/memory/memory.cpp:195-220 | the head of the partial list if there is one, else the head of the free list, else a new slab; the chosen slab leaves its list and has a free chunk |
| Kmalloc.Allocator.TakeChunk | kernel/klib/memory/memory.cpp:222-223 | allocate_chunk_from_slab on the chosen slab: one more chunk of it allocated, the other slabs unchanged |
| Kmalloc.Allocator.FileSlab | kernel/klib/memory/memory.cpp:227-236 | the slab goes to the head of the full list if it has no free chunk, of the partial list otherwise |
| Kmalloc.Allocator.Preallocate | kernel/klib/memory/memory.cpp:246-255 | when the slab is more than 90% used and the free list is empty, a new empty slab goes to the head of the free list; otherwise nothing changes |
| Kmalloc.Allocator.TakeAndFile | kernel/klib/memory/memory.cpp:222-236 | a chunk that was free is taken and the slab filed as partial or full |
| Kmalloc.Allocator.Serve | kernel/klib/memory/memory.cpp:195-236 | the chunk comes from the slab PickSlab chooses and was free before; every other slab keeps its header, its list and its chunks, and the chosen slab keeps the chunks and size class it had |
| Kmalloc.Allocator.AllocSmall | kernel/klib/memory/memory.cpp:195-255 | the chunk returned is held afterwards and was not before, and every chunk held before is still held |
| Kmalloc.Allocator.Kmalloc | kernel/klib/memory/memory.cpp:128-266 | a request no chunk holds gets the pages of a large allocation, recorded with their count; any other gets a chunk of its size class that was not allocated before; either way every chunk held before is still held |
| Kmalloc.Allocator.RecordLarge | kernel/klib/memory/memory.cpp:180-181 | large_allocations->insert records the pages of a page-aligned allocation |
| Kmalloc.Allocator.ForgetLarge | kernel/klib/memory/memory.cpp:313-316 | large_allocations->remove forgets a recorded large allocation |
| Kmalloc.Allocator.ReleaseChunk | kernel/klib/memory/memory.cpp:351-371 | the chunk's bit is cleared and the slab's count drops by one, the other slabs unchanged; the chunk is no longer held and every other held chunk still is |
| Kmalloc.Allocator.Refile | kernel/klib/memory/memory.cpp:372-395 | an emptied slab is dropped when the free list already holds MAX_FREE_SLABS slabs and goes to the tail of the free list otherwise; a slab that was full moves to the partial list; exactly the same chunks are held before and after |
| Kmalloc.Allocator.RefileEmpty | kernel/klib/memory/memory.cpp:372-388 | an empty slab leaves its list and is dropped or goes to the tail of the free list, by the free list's length |
| Kmalloc.Allocator.Unfull | kernel/klib/memory/memory.cpp:389-395 | a slab that was full moves to the tail of the partial list |
| Kmalloc.Allocator.FreeSmall | kernel/klib/memory/memory.cpp:318-396 | kfree of a chunk: its bit cleared; the slab dropped, at the tail of the free list or in the partial list, by whether it emptied and the free list's length; the chunk no longer held, every other held chunk still held and every other slab's chunks unchanged |
| Kmalloc.Allocator.Kfree | kernel/klib/memory/memory.cpp:273-405 | a page-aligned address frees a recorded large allocation; any other frees an allocated chunk and refiles its slab as FreeSmall states; every other held chunk stays held |
| PhysicalMemory.MasksDisjoint | kernel/mem/physical.cpp:182-218 | the masks 0x8000000000000000 >> i of two different bit positions share no bit |
| PhysicalMemory.SetPageEffect | kernel/mem/physical.cpp:179-189 | setting a page's bit marks that page free and changes no other page |
| PhysicalMemory.ClearPageEffect | kernel/mem/physical.cpp:214-224 | clearing a page's bit marks that page in use and changes no other page |
| PhysicalMemory.PageOfBit | kernel/mem/physical.cpp:113-180 | bit j of word i belongs to page 64 * i + j, the page whose word and bit the setters compute |
| PhysicalMemory.WordBit | kernel/mem/physical.cpp:111-113 | testing word i against the mask of position j tests whether page 64 * i + j is free |
| PhysicalMemory.LowestMarked | kernel/mem/physical.cpp:104-123 | a free page with no free page below it is the least free page |
| PhysicalMemory.LowestFree | kernel/mem/physical.cpp:104-126 | once the search has passed position j of word i, every free page lies at 64 * i + j or above |
| PhysicalMemory.CountStep | kernel/mem/physical.cpp:62-73 | each step of the counting loop meets a page not seen before and counts it exactly when it is free |
| PhysicalMemory.ScannedAll | kernel/mem/physical.cpp:62-74 | after all words the counting loop has seen every free page |
| PhysicalMemory.PhysicalPages.constructor | kernel/mem/physical.cpp:42-81 | mem_init_gen_phys_sys: the free pages are the usable E820 pages less the kernel's pages, the existence bitmap equals the allocation bitmap, and free_pages counts them |
| PhysicalMemory.PhysicalPages.GenPhysPagesBitmap | kernel/mem/physical.cpp:51 | the bitmap is zeroed and exactly the pages the E820 map offers are marked free |
| PhysicalMemory.PhysicalPages.ClearKernelPages | kernel/mem/physical.cpp:54-57 | the first MEM_NUM_KERNEL_PAGES pages are removed from the free set, with checks ignored |
| PhysicalMemory.PhysicalPages.CopyAllocToExist | kernel/mem/physical.cpp:59 | the existence bitmap becomes a copy of the allocation bitmap |
| PhysicalMemory.PhysicalPages.CountFreePages | kernel/mem/physical.cpp:61-74 | free_pages becomes the number of free pages |
| PhysicalMemory.PhysicalPages.SetPageBit | kernel/mem/physical.cpp:169-194 | mem_set_bitmap_page_bit: the page's bit is set (the page must exist unless checks are ignored) and the free set gains exactly that page |
| PhysicalMemory.PhysicalPages.ClearPageBit | kernel/mem/physical.cpp:204-227 | mem_clear_bitmap_page_bit: the page's bit is cleared and the free set loses exactly that page |
| PhysicalMemory.PhysicalPages.IsPageBitSet | kernel/mem/physical.cpp:236-259 | true iff the page is free |
| PhysicalMemory.PhysicalPages.AllocatePhysicalPages | kernel/mem/physical.cpp:90-133 | with one page asked for and free_pages positive, returns the lowest free page, page-aligned, removes it from the free set and decrements free_pages; the closing panic is unreachable |
| PhysicalMemory.PhysicalPages.TakePage | kernel/mem/physical.cpp:111-122 | the found page: its address is SIZE_OF_PAGE * (64 * i + j), it was free, it is now in use and free_pages drops by one |
| PhysicalMemory.PhysicalPages.DeallocatePhysicalPages | kernel/mem/physical.cpp:142-158 | an aligned, existing, allocated page returns to the free set and free_pages grows by one |
| VirtualMemory.HalvesAligned | kernel/mem/virtual.cpp:605-644 | both halves of a block aligned to its size start on a multiple of the half size |
| VirtualMemory.LowerBuddyAligned | kernel/mem/virtual.cpp:654-732 | the range before a second half is the first half, aligned to the doubled size |
| VirtualMemory.SpacePow2 | kernel/mem/virtual.cpp:349 | the sizes of the kernel's space and of a process's space (0x2000000 pages) are powers of two |
| VirtualMemory.RoundUpPow2 | kernel/mem/virtual.cpp:121 | round_to_power_two gives the smallest power of two at least n |
| VirtualMemory.RoundUpExact | kernel/mem/virtual.cpp:170-187 | rounding leaves a power of two alone, so the assertion of mem_vmm_allocate_specific_range accepts exactly powers of two |
| VirtualMemory.ChainOrder | kernel/mem/virtual.cpp:472-895 | the ranges of the list follow one another in address order without overlapping |
| VirtualMemory.ChainCovers | kernel/mem/virtual.cpp:472-895 | every address of the space lies in one of the ranges |
| VirtualMemory.AlignedAddressCovered | kernel/mem/virtual.cpp:198-203 | every page-aligned address of the space passes the containment test of some range |
| VirtualMemory.CoverUnique | kernel/mem/virtual.cpp:198-203 | at most one range passes the containment test |
| VirtualMemory.AllocatedMark | kernel/mem/virtual.cpp:213-215 | marking a free range allocated adds it to the ranges handed out |
| VirtualMemory.AllocatedUnmark | kernel/mem/virtual.cpp:289-291 | marking an allocated range free takes it out of the ranges handed out |
| VirtualMemory.SplitPieces | kernel/mem/virtual.cpp:605-644 | splitting ends with the upper half of the original range and yields at least two pieces |
| VirtualMemory.HalvesSound | kernel/mem/virtual.cpp:605-644 | the two halves of a range are well formed and cover it exactly |
| VirtualMemory.SplitSound | kernel/mem/virtual.cpp:605-644 | splitting down to reqd pages covers the range exactly, the first piece has reqd pages and the range's state, and every other piece is free |
| VirtualMemory.Partner | kernel/mem/virtual.cpp:654-732 | the partner considered for merging is a range of the list |
| VirtualMemory.MergeIsBuddy | kernel/mem/virtual.cpp:654-732 | a mergeable partner lies beside the range, is the same size, and the two form a well-formed range of twice the size |
| VirtualMemory.MergeSound | kernel/mem/virtual.cpp:654-732 | a merge keeps the ranges covering the space and the ranges handed out, shortens the list by one, and the joined range covers the original |
| VirtualMemory.VirtualSpace.ProcessSpace | kernel/mem/virtual.cpp:324-352 | mem_vmm_init_proc_data: a process's space is one free range of 0x2000000 pages at 0 |
| VirtualMemory.VirtualSpace.KernelSpace | kernel/mem/virtual.cpp:476-540 | mem_vmm_initialize: the kernel's space with the kernel image allocated at its start and its last page reserved, nothing else allocated |
| VirtualMemory.VirtualSpace.GetSuitableRange | kernel/mem/virtual.cpp:547-586 | the smallest free range of at least n pages, the first of several that small |
| VirtualMemory.VirtualSpace.SplitRange | kernel/mem/virtual.cpp:605-644 | range i is replaced by its split pieces; the first has reqd pages |
| VirtualMemory.VirtualSpace.ResolveMerges | kernel/mem/virtual.cpp:654-732 | merging from a free range until no partner is left keeps the ranges handed out, and ends at a free range holding the start one that has no partner to join |
| VirtualMemory.VirtualSpace.FindStart | kernel/mem/virtual.cpp:283-306 | the first range starting at the address, or none when no range starts there |
| VirtualMemory.VirtualSpace.FindCovering | kernel/mem/virtual.cpp:192-230 | the first range that passes the containment test |
| VirtualMemory.VirtualSpace.AllocateVirtualRange | kernel/mem/virtual.cpp:87-151 | a range of round_to_power_two(n) pages, free before, at the start of a smallest fitting range, is added to the ranges handed out |
| VirtualMemory.VirtualSpace.MarkAllocated | kernel/mem/virtual.cpp:213-215 | free range i becomes allocated and is added to the ranges handed out |
| VirtualMemory.VirtualSpace.AllocateSpecificRange | kernel/mem/virtual.cpp:164-239 | with an aligned power-of-two request inside a free range large enough, exactly that range is added to the ranges handed out |
| VirtualMemory.VirtualSpace.DeallocateVirtualRange | kernel/mem/virtual.cpp:254-319 | the allocated range at start, of the rounded size, is taken out of the ranges handed out and merged with its free buddies |
| VirtualMemory.VirtualSpace.GetVirtualAllocationSize | kernel/mem/virtual.cpp:422-465 | the page count of the allocated range starting at the address, or 0 when no allocated range starts there |
| VirtualMemory.VirtualSpace.FirstAllocated | kernel/mem/virtual.cpp:375-385 | the first allocated range, or none when nothing is allocated |
| VirtualMemory.VirtualSpace.FreeProcData | kernel/mem/virtual.cpp:360-413 | no allocation is added; the assertions hold exactly when the space ends as one free range; they fail only when more than one range is left, all free, or the one range left is allocated |
| VirtualMemory.NotYetAllocated | kernel/mem/virtual.cpp:124-130 | the smallest fitting range is free, so its allocation is new |
| VirtualMemory.KernelImageAligned | kernel/mem/virtual.cpp:476-540 | the kernel image's start is a multiple of its own size |
| VirtualMemory.LastPageFree | kernel/mem/virtual.cpp:476-540 | with only the kernel image allocated, the last page of the kernel's space lies in a free range, so it can be reserved |
| VirtualMemory.SpecificAllocationAsWritten | kernel/mem/virtual.cpp:202-226 | as written, a range smaller than the request fails the size assertion, one of exactly the request's size passes exactly when it is free, and a larger one is split into pieces that start at its start and lie inside it; besides the pages requested, the only allocated pieces come from a range that was already allocated |
| VirtualMemory.SpecificAllocationHandsOut | kernel/mem/virtual.cpp:202-226 | when no assertion fails, the pieces include an allocated range of exactly the pages requested |
| VirtualMemory.SpecificAllocationHoldsAddr | kernel/mem/virtual.cpp:199-226 | when the split range is a well-formed range holding the page-aligned address, that allocated piece is the one holding the address |
| VirtualMemory.UpperHalfCovers | kernel/mem/virtual.cpp:199-203 | a page-aligned address of a range that the containment test does not place in the first half is placed in the second |
| VirtualMemory.SpecificAllocationInsideAllocation | kernel/mem/virtual.cpp:203-222 | reserving two pages inside an allocated four-page range passes every assertion and turns one allocation into two |
| MemX64.EncodeAsWritten | kernel/mem/x64/mem-x64.cpp:488-521 | mem_encode_page_table_entry with its two assertions as preconditions (a leaf has a PAT index below 4 and address bits 12-19 clear); under them a leaf entry never gets the PAT bit 12 |
| MemX64.DecodedTargetMask | kernel/mem/x64/mem-x64.cpp:554-561 | the decoded target address is the entry masked by 0x0007FFFFFFF00000 for a leaf and by 0x0007FFFFFFFFF000 otherwise |
| MemX64.EndOfTreeKept | kernel/mem/x64/mem-x64.cpp:495-535 | bit 7 of the encoding is set iff the entry is the end of the tree |
| MemX64.PresentKept | kernel/mem/x64/mem-x64.cpp:495-536 | bit 0 of the encoding is set iff the entry is present |
| MemX64.WritableKept | kernel/mem/x64/mem-x64.cpp:495-537 | bit 1 of the encoding is set iff the entry is writable |
| MemX64.UserKept | kernel/mem/x64/mem-x64.cpp:495-538 | bit 2 of the encoding is set iff the entry is user-mode |
| MemX64.TargetKept | kernel/mem/x64/mem-x64.cpp:494-561 | the target address survives encoding and decoding, reduced to the address bits, when a leaf's bits 12-19 are clear |
| MemX64.PatKept | kernel/mem/x64/mem-x64.cpp:512-547 | decoding gives back the whole PAT index of a leaf entry and bits 0-1 of a table entry's index |
| MemX64.DecodeEncode | kernel/mem/x64/mem-x64.cpp:488-566 | with the assertion corrected (table entries, not leaves, need a PAT index below 4), decode(encode(pte)) gives back every field, the address reduced to the bits an entry holds |
| MemX64.DecodeEncodeAsWritten | kernel/mem/x64/mem-x64.cpp:488-566 | as written, decode(encode(pte)) gives back the flags and the masked address but only bits 0-1 of the PAT index |
| MemX64.TablePatIndexLost | kernel/mem/x64/mem-x64.cpp:501-516 | as written, a table entry with PAT index 4 passes the assertions and decodes with index 0 |
| MemX64.TableIndices | kernel/mem/x64/mem-x64.cpp:230-235 | each of the PML4, PDPT and PD indices is below 512 |
| MemX64.TableIndicesCompose | kernel/mem/x64/mem-x64.cpp:230-235 | the indices are bits 39-47, 30-38 and 21-29: together with the offset in the 2MB page they rebuild the low 48 bits of the address |
| MemX64.IsKernelAddress | kernel/mem/x64/mem-x64.cpp:228 | an address is a kernel address iff it is at least 2^63 |
| MemX64.IsValidVirtAddrAsWritten | kernel/mem/x64/mem-x64.cpp:714-727 | valid iff the top 16 bits are all clear or all set, as a range condition on the address |
| MemX64.IsValidVirtAddr | kernel/mem/x64/mem-x64.cpp:714-727 | the canonical test with 48-bit virtual addresses (bits 47-63 equal), which implies the written test |
| MemX64.NonCanonicalAccepted | kernel/mem/x64/mem-x64.cpp:719-721 | 0x0000800000000000 passes the written test but is not canonical |
| MemX64.CarveSequence | kernel/mem/x64/mem-x64.cpp:407-429 | from no partly used page, the i-th call returns the i-th 4kB page of the new 2MB page, and the 512th call resets the pointer to null |
| MemX64.CarveStaysInPage | kernel/mem/x64/mem-x64.cpp:412-424 | a 4kB-aligned carved page is followed by the next 4kB page in the same 2MB page, or by null |
| MemX64.TablePageCarver.constructor | kernel/mem/x64/mem-x64.cpp:47-101 | next_4kb_page starts as null |
| MemX64.TablePageCarver.GetNext4kbPage | kernel/mem/x64/mem-x64.cpp:407-429 | returns the page and moves next_4kb_page as one carving step from its old value |
| MemX64.RecordsRead | kernel/mem/x64/mem-x64.cpp:144-189 | the records the E820 loop reads: none of them is the all-zero terminator or starts at or past table_length, and the next one would be (or the records run out) |
| MemX64.PagesPerRecord | kernel/mem/x64/mem-x64.cpp:144-190 | one page list per record, each that record's pages |
| MemX64.RecordPagesExact | kernel/mem/x64/mem-x64.cpp:157-185 | a page is marked for a record iff the record is type 1, the page is 2MB-aligned, not page 0 and wholly inside the record |
| MemX64.RoundedBounds | kernel/mem/x64/mem-x64.cpp:159-168 | the start is rounded up and the end rounded down to 2MB boundaries, each by less than 2MB |
| MemX64.AlignedBounds | kernel/mem/x64/mem-x64.cpp:159-168 | an aligned page is at or above the rounded start iff it is at or above the record's start, and below the rounded end iff it ends inside the record |
| MemX64.MapPagesMembers | kernel/mem/x64/mem-x64.cpp:144-190 | a page is marked iff some record contributes it |
| MemX64.MapPagesExtend | kernel/mem/x64/mem-x64.cpp:144-190 | reading one more record appends that record's pages |
| MemX64.MarkRecord | kernel/mem/x64/mem-x64.cpp:157-187 | the addresses one record hands to mem_set_bitmap_page_bit, in order, are that record's pages |
| MemX64.GenPhysPagesMarks | kernel/mem/x64/mem-x64.cpp:118-193 | the marking loop marks exactly the pages of the records read before the terminator or the end of the table |
| SystemTreeBranch.FirstIndexOf | kernel/include/types/system_tree_branch.h:134 | the first position of the separator, None exactly when the name has none |
| SystemTreeBranch.LastIndexOf | kernel/include/types/system_tree_branch.h:129 | the last position of the separator, None exactly when the name has none |
| SystemTreeBranch.SplitName | kernel/include/types/system_tree_branch.h:119-147 | a name without a separator splits into itself and ""; otherwise the two parts joined by the separator give the name back, with no separator in the first part (split from the start) or in the second (split from the end) |
| SystemTreeBranch.SplitFromStartUnique | kernel/include/types/system_tree_branch.h:133-146 | splitting from the start cuts at the first separator and nowhere else |
| SystemTreeBranch.SplitFromEndUnique | kernel/include/types/system_tree_branch.h:128-146 | splitting from the end cuts at the last separator and nowhere else |
| SystemTreeSimpleBranch.GetChild | kernel/system_tree/system_tree_simple_branch.cpp:25-78 | a direct name resolves to its child or NOT_FOUND; every failure is NOT_FOUND |
| SystemTreeSimpleBranch.AddChild | kernel/system_tree/system_tree_simple_branch.cpp:80-146 | a null child is INVALID_PARAM, an empty name INVALID_NAME, an existing direct name ALREADY_EXISTS, and a fresh direct name is added |
| SystemTreeSimpleBranch.GetThrough | kernel/system_tree/system_tree_simple_branch.cpp:35-65 | a path whose first component names a child branch is resolved inside that branch |
| SystemTreeSimpleBranch.AddThenGet | kernel/system_tree/system_tree_simple_branch.cpp:80-146 | a child that was added is found again under the same path |
| SystemTreeSimpleBranch.AddKeepsOthers | kernel/system_tree/system_tree_simple_branch.cpp:80-146 | adding leaves every other direct child where it was |
| SystemTreeSimpleBranch.DeleteChild | kernel/system_tree/system_tree_simple_branch.cpp:279-327 | a direct name is removed when present and NOT_FOUND otherwise |
| SystemTreeSimpleBranch.DeleteThenGet | kernel/system_tree/system_tree_simple_branch.cpp:279-327 | after a successful delete the path no longer resolves |
| SystemTreeSimpleBranch.RenameChild | kernel/system_tree/system_tree_simple_branch.cpp:196-277 | names that split at different places are INVALID_OP; a direct rename moves the child to the new name (overwriting one already there) or is NOT_FOUND |
| SystemTreeSimpleBranch.RenameMoves | kernel/system_tree/system_tree_simple_branch.cpp:250-272 | after a direct rename the new name resolves to the child and, unless the names are equal, the old name is gone |
| SystemTreeSimpleBranch.RenameAcrossBranchesRefused | kernel/system_tree/system_tree_simple_branch.cpp:214-249 | a rename between two different child branches is INVALID_OP |
| SystemTreeSimpleBranch.CreateChild | kernel/system_tree/system_tree_simple_branch.cpp:148-194 | a simple branch never creates a leaf itself: the result is INVALID_OP or NOT_FOUND |
| SystemTreeSimpleBranch.SimpleBranch.constructor | kernel/system_tree/system_tree_simple_branch.cpp:9-16 | a new branch has no children |
| SystemTreeSimpleBranch.SimpleBranch.Get | kernel/system_tree/system_tree_simple_branch.cpp:25-78 | the call reports GetChild's outcome |
| SystemTreeSimpleBranch.SimpleBranch.Add | kernel/system_tree/system_tree_simple_branch.cpp:80-146 | on success the children become AddChild's map; on failure they are unchanged and the error is returned |
| SystemTreeSimpleBranch.SimpleBranch.Rename | kernel/system_tree/system_tree_simple_branch.cpp:196-277 | on success the children become RenameChild's map; on failure they are unchanged |
| SystemTreeSimpleBranch.SimpleBranch.Delete | kernel/system_tree/system_tree_simple_branch.cpp:279-327 | on success the children become DeleteChild's map; on failure they are unchanged |
| SyscallRw.TransferCheck | kernel/syscall/syscall_rw.cpp:57-113 | a read or write reaches the file exactly when buffer and out-pointer are valid user addresses, the buffer size is non-zero, the thread is known and the handle names a readable (writable) object; a zero buffer size is INVALID_PARAM and INVALID_OP comes only from a missing thread or the wrong kind of object |
| SyscallRw.ProposedOffset | kernel/syscall/syscall_rw.cpp:397-416 | a proposed position exists exactly when the direction is FROM_START, FROM_END or FROM_CUR |
| SyscallRw.SeekResult | kernel/syscall/syscall_rw.cpp:390-436 | a successful seek lands inside the file; the only failures are INVALID_PARAM, exactly for a bad direction, and OUT_OF_RANGE |
| SyscallRw.SeekIsExact | kernel/syscall/syscall_rw.cpp:397-436 | for sizes and positions below 2^63 the uint64_t wrap-around never admits a wrong target: a seek succeeds exactly when the mathematical target is in 0..size, and lands there |
| SyscallRw.SeekWithinFile | kernel/syscall/syscall_rw.cpp:399-428 | a seek from the start to n, or from the end back by n, with n in 0..size succeeds and lands on n, respectively size - n |
| SyscallRw.HandleData.constructor | kernel/syscall/syscall_rw.cpp:94-108 | a new handle's seek position is 0 |
| SyscallRw.HandleData.Transfer | kernel/syscall/syscall_rw.cpp:45-123 | a refused call leaves the seek position; an accepted one asks the file for min(bytes, buffer size) bytes at start + seek position, returns the file's result and advances the seek position by the bytes moved |
| SyscallRw.HandleData.Seek | kernel/syscall/syscall_rw.cpp:363-452 | a failed size query or seek leaves the position and reports the error; a successful seek moves the position to the target and reports it |
| MemFs.Resized | kernel/system_tree/fs/mem/mem_fs.cpp:206-236 | the resized contents keep the old bytes below the new size and are zero beyond the old end |
| MemFs.ResizeShrinkGrow | kernel/system_tree/fs/mem/mem_fs.cpp:206-236 | shrinking and then growing back zero-fills whatever was cut off |
| MemFs.ReadLength | kernel/system_tree/fs/mem/mem_fs.cpp:108-128 | a start past the end reads nothing; otherwise the count is min(length, file size - start, buffer length), so the read stays inside the file and the buffer |
| MemFs.ReadLengthWrapReadsPastEnd | kernel/system_tree/fs/mem/mem_fs.cpp:115-119 | as written, a length that makes start + length wrap past 2^64 escapes the end-of-file cut (start 8, a huge length, a 16-byte file copies 100 bytes) |
| MemFs.ReadLengthAsWritten | kernel/system_tree/fs/mem/mem_fs.cpp:108-125 | as written, the copy never exceeds the request or the caller's buffer, and is empty when start is past the end |
| MemFs.ReadLengthAgrees | kernel/system_tree/fs/mem/mem_fs.cpp:108-128 | whenever start + length does not wrap, the code as written and the corrected count agree |
| MemFs.Written | kernel/system_tree/fs/mem/mem_fs.cpp:140-175 | after a write the file is grown to start + length if that passes the end, holds the written bytes at start, and keeps (or zero-fills) every other byte |
| MemFs.MemFsLeaf.constructor | kernel/system_tree/fs/mem/mem_fs.cpp:69-79 | a new leaf is an empty file |
| MemFs.MemFsLeaf.GetFileSize | kernel/system_tree/fs/mem/mem_fs.cpp:177-186 | the reported size is the buffer length, always NO_ERROR |
| MemFs.MemFsLeaf.SetFileSize | kernel/system_tree/fs/mem/mem_fs.cpp:188-236 | a fresh buffer holds the resized contents |
| MemFs.MemFsLeaf.ReadBytes | kernel/system_tree/fs/mem/mem_fs.cpp:87-138 | a null buffer is INVALID_PARAM; otherwise ReadLength bytes from start are copied to the front of the caller's buffer and nothing else in it changes |
| MemFs.MemFsLeaf.WriteBytes | kernel/system_tree/fs/mem/mem_fs.cpp:140-175 | min(length, buffer length) bytes are written at start, growing the file as needed, and the source is not changed; corrected: a write whose end does not fit in 64 bits is refused with INVALID_PARAM and changes nothing |
| MemFs.WriteSizeAsWritten | kernel/system_tree/fs/mem/mem_fs.cpp:158-162 | as written, the file grows to start + length computed in uint64_t; without a wrap that is the larger of the old size and the end of the write |
| MemFs.WriteWrapPassesAssertAsWritten | kernel/system_tree/fs/mem/mem_fs.cpp:158-165 | 8 bytes at 2^64 - 4 in a 16-byte file: the end wraps to 4, the file is not grown and the ASSERT passes, while the copy runs far past byte 16 |
| PipeFs.Available | kernel/system_tree/fs/pipe/pipe_fs.cpp:176-183 | bytes waiting are wp - rp, or SIZE + wp - rp once the write pointer has wrapped; zero exactly when the pointers meet |
| PipeFs.FreeSpace | kernel/system_tree/fs/pipe/pipe_fs.cpp:297-304 | free space plus waiting bytes is always SIZE - 1, so a full pipe never looks empty (the corrected rule) |
| PipeFs.NextSlot | kernel/system_tree/fs/pipe/pipe_fs.cpp:210-221 | one pointer step moves to the next slot of the ring |
| PipeFs.NextAsWritten | kernel/system_tree/fs/pipe/pipe_fs.cpp:216-220 | as written, a pointer step agrees with the ring step except at the last slot, where it moves to offset 1024 (one past the buffer) instead of wrapping to 0 |
| PipeFs.AdvanceAsWrittenNoWrap | kernel/system_tree/fs/pipe/pipe_fs.cpp:216-220 | as written, a pointer that does not pass the end advances by n |
| PipeFs.AdvanceAsWritten | kernel/system_tree/fs/pipe/pipe_fs.cpp:210-221 | as written, a pointer inside the buffer moved any number of steps stays at most at offset 1024, the slot past the end |
| PipeFs.WriteOverrunsBufferAsWritten | kernel/system_tree/fs/pipe/pipe_fs.cpp:328-332 | as written, the `>` wrap test lets the write pointer reach _buffer + 1024 and the next byte is stored past the 1024-byte buffer |
| PipeFs.FullWriteLooksEmptyAsWritten | kernel/system_tree/fs/pipe/pipe_fs.cpp:297-304 | with the read and write pointers wrapped at the end of the buffer (the corrected wrap), the as-written room rule offers an empty pipe all SIZE slots, and filling them brings the write pointer back onto the read pointer, so the pipe reads as empty and the data is lost |
| PipeFs.FreeSpaceAsWritten | kernel/system_tree/fs/pipe/pipe_fs.cpp:297-304 | as written, the room offered is always one more than the corrected room, which keeps a slot free |
| PipeFs.LeafCheck | kernel/system_tree/fs/pipe/pipe_fs.cpp:148-157 | a deleted parent pipe gives INVALID_OP, otherwise a null buffer gives INVALID_PARAM, and only a live pipe with a buffer goes on |
| PipeFs.PipeBranch.constructor | kernel/system_tree/fs/pipe/pipe_fs.cpp:26-36 | a new pipe is empty |
| PipeFs.PipeBranch.Read | kernel/system_tree/fs/pipe/pipe_fs.cpp:162-223 | min(available, length, buffer length) bytes leave the pipe, oldest first, into the front of the caller's buffer; the rest of the pipe stays in order |
| PipeFs.PipeBranch.Write | kernel/system_tree/fs/pipe/pipe_fs.cpp:295-335 | min(free space, buffer length, length) bytes join the pipe after what it already holds |
| PipeFs.PipeReadLeaf.ReadBytes | kernel/system_tree/fs/pipe/pipe_fs.cpp:131-233 | the checks of LeafCheck decide the error; otherwise the branch's read happens and NO_ERROR is returned |
| PipeFs.PipeWriteLeaf.WriteBytes | kernel/system_tree/fs/pipe/pipe_fs.cpp:262-354 | the checks of LeafCheck decide the error; otherwise the branch's write happens and NO_ERROR is returned |
| FatFs.DetermineFatType | kernel/system_tree/fs/fat/fat_fs.cpp:341-386 | the type is FAT12 iff the cluster count is below 4085, FAT16 iff it is from 4085 to 65524, FAT32 otherwise; the count is the whole clusters of the data sectors, and a volume whose private sectors exceed its total wraps around to FAT32 |
| FatFs.ClustersIn | kernel/system_tree/fs/fat/fat_fs.cpp:362 | the cluster count is the number of whole clusters in the data sectors |
| FatFs.PrivateSectorsBound | kernel/system_tree/fs/fat/fat_fs.cpp:348-358 | reserved sectors, the FATs and the root directory stay below 2^41 sectors, so the uint64_t sum never wraps |
| FatFs.LargeQuotient | kernel/system_tree/fs/fat/fat_fs.cpp:359-362 | a data sector count that wrapped below zero gives more than 65524 clusters |
| FatFs.Word16 | kernel/system_tree/fs/fat/fat_fs.cpp:475-490 | a 16-bit little-endian table word is below 2^16 |
| FatFs.Word32 | kernel/system_tree/fs/fat/fat_fs.cpp:496 | a 32-bit little-endian table word is below 2^32 |
| FatFs.Put16 | kernel/system_tree/fs/fat/fat_fs.cpp:562-568 | copying two bytes of a value into the table makes its word that value and changes no other byte |
| FatFs.Put32 | kernel/system_tree/fs/fat/fat_fs.cpp:575 | copying four bytes makes the 32-bit word that value and changes no other byte |
| FatFs.ReadEntry | kernel/system_tree/fs/fat/fat_fs.cpp:449-512 | an entry is below 2^12, 2^16 or 2^28 by type, and a cluster outside 2 to number_of_clusters + 1 reads as 0 |
| FatFs.WriteEntry | kernel/system_tree/fs/fat/fat_fs.cpp:521-591 | writing an in-range entry keeps the table's length |
| FatFs.Merge12 | kernel/system_tree/fs/fat/fat_fs.cpp:546-560 | the merged FAT12 word stays a 16-bit word |
| FatFs.ReadAfterWrite | kernel/system_tree/fs/fat/fat_fs.cpp:449-591 | an entry written and read back gives the value cut to the type's width |
| FatFs.Fat12ReadAfterWrite | kernel/system_tree/fs/fat/fat_fs.cpp:539-564 | a FAT12 entry written and read back gives the value's low 12 bits |
| FatFs.WriteKeepsOthers | kernel/system_tree/fs/fat/fat_fs.cpp:521-591 | writing one entry leaves every other entry's value as it was |
| FatFs.Fat12KeepsOthers | kernel/system_tree/fs/fat/fat_fs.cpp:548-560 | a FAT12 write keeps every other entry, the neighbour sharing its middle byte included |
| FatFs.Fat12Apart | kernel/system_tree/fs/fat/fat_fs.cpp:470-540 | FAT12 entries of clusters in different pairs share no byte |
| FatFs.Fat12EvenNeighbour | kernel/system_tree/fs/fat/fat_fs.cpp:555-560 | writing an even FAT12 entry keeps the odd neighbour's nibble of the shared byte |
| FatFs.Fat12OddNeighbour | kernel/system_tree/fs/fat/fat_fs.cpp:481-554 | writing an odd FAT12 entry keeps the even neighbour's nibble of the shared byte |
| FatFs.NotNormal | kernel/system_tree/fs/fat/fat_fs.cpp:601-638 | a cluster is normal iff it is from 2 up to 0xFEF, 0xFFEF or 0xFFFFFEF by type; 0, 1 and the end-of-chain marker are not |
| FatFs.FatFilesystem.constructor | kernel/system_tree/fs/fat/fat_fs.cpp:24-114 | the type and cluster count are determine_fat_type's; FAT12/16 volumes start the root directory after the FATs and the data after the root directory; FAT32 volumes have no fixed root directory and start the data after the FATs; the table is the one read from disk and clean |
| FatFs.FatFilesystem.ClusterToSector | kernel/system_tree/fs/fat/fat_fs.cpp:645-664 | a normal cluster's first sector is (n - 2) clusters past the first data sector; any other number gives ~0 |
| FatFs.FatFilesystem.SectorToCluster | kernel/system_tree/fs/fat/fat_fs.cpp:675-699 | a sector maps to a cluster iff it lies between the first data sector and the last sector; the cluster is at least 2 and the offset within the cluster |
| FatFs.FatFilesystem.SectorToClusterInverts | kernel/system_tree/fs/fat/fat_fs.cpp:645-699 | every sector of a normal cluster maps back to that cluster and its offset |
| FatFs.FatFilesystem.ClusterToSectorInverts | kernel/system_tree/fs/fat/fat_fs.cpp:645-699 | a sector mapped to a normal cluster is that cluster's first sector plus the offset |
| FatFs.FatFilesystem.NextFileSectorFollowsChain | kernel/system_tree/fs/fat/fat_fs.cpp:401-440 | the next sector of a file is the next one of the same cluster or the first of the cluster the FAT entry links to |
| FatFs.FatFilesystem.WriteFatEntry | kernel/system_tree/fs/fat/fat_fs.cpp:521-591 | an in-range cluster's entry takes the value cut to its width and the table is marked dirty, the result staying the initial UNKNOWN; any other cluster gives OUT_OF_RANGE and changes nothing |
| FatFs.FatFilesystem.Store16 | kernel/system_tree/fs/fat/fat_fs.cpp:562-568 | the table holds the 16-bit value at the offset, low byte first |
| FatFs.FatFilesystem.Store32 | kernel/system_tree/fs/fat/fat_fs.cpp:575 | the table holds the 32-bit value at the offset, low byte first |
| FatFs.FatFilesystem.SelectFreeCluster | kernel/system_tree/fs/fat/fat_fs.cpp:829-851 | NO_ERROR with the lowest cluster whose entry is free, or OUT_OF_RESOURCE when every cluster is in use |
| FatFs.FirstFreeBelow | kernel/system_tree/fs/fat/fat_fs.cpp:836-846 | a cluster found lies in the searched range and is free |
| FatFs.SelectFreeAsWritten | kernel/system_tree/fs/fat/fat_fs.cpp:829-851 | as written, the cluster found lies from 2 to number_of_clusters and is free |
| FatFs.FirstFreeBelowNone | kernel/system_tree/fs/fat/fat_fs.cpp:836-846 | the search finds nothing only when every cluster in the range is in use |
| FatFs.LastClusterNeverSelected | kernel/system_tree/fs/fat/fat_fs.cpp:836 | a volume whose only free cluster is its last, number_of_clusters + 1, is reported full |
| FatFs.FatFilesystem.ChangeFileChainLength | kernel/system_tree/fs/fat/fat_fs.cpp:702-787 | an existing chain with an abnormal start gives INVALID_PARAM; equal lengths change nothing; otherwise the chain (none when the old length is 0, whatever the start says) is cut to or extended to the new length (or as far as the free clusters allow, with OUT_OF_RESOURCE), freed clusters are free, added clusters were free, other entries are kept, and the table is written back |
| FatFs.FatFilesystem.StartChain | kernel/system_tree/fs/fat/fat_fs.cpp:724-738 | a file with no chain gets a free cluster as its start, marked as the end of its chain, or fails with OUT_OF_RESOURCE; an existing chain is walked from its start |
| FatFs.StaleStartReusedAsWritten | kernel/system_tree/fs/fat/fat_fs.cpp:725-747 | (as written) a zero-length chain whose start names another file's cluster is grown from that cluster, which both files then share |
| FatFs.FatFilesystem.WalkChain | kernel/system_tree/fs/fat/fat_fs.cpp:740-773 | the loop ends with the chain resized or out of free clusters |
| FatFs.FatFilesystem.ChainStep | kernel/system_tree/fs/fat/fat_fs.cpp:742-772 | one pass of the loop keeps the loop's state |
| FatFs.FatFilesystem.WriteFatToDisk | kernel/system_tree/fs/fat/fat_fs.cpp:791-822 | the device's status is returned and the table is clean |
| FatFs.Store | kernel/system_tree/fs/fat/fat_fs.cpp:529-533 | a cluster outside the table is refused and the table keeps its length |
| FatFs.StoreKeepsOthers | kernel/system_tree/fs/fat/fat_fs.cpp:521-591 | a write to one entry leaves every other entry as it was |
| FatFs.StoreEffect | kernel/system_tree/fs/fat/fat_fs.cpp:521-591 | a write changes only its entry, which takes the value cut to its width |
| FatFs.FreeIsOffChain | kernel/system_tree/fs/fat/fat_fs.cpp:740-773 | a free cluster is on no chain |
| FatFs.StartLengthening | kernel/system_tree/fs/fat/fat_fs.cpp:724-727 | the loop starts at the chain's first cluster when lengthening |
| FatFs.StartNewChain | kernel/system_tree/fs/fat/fat_fs.cpp:729-737 | a new chain starts at a free cluster marked as its end |
| FatFs.NoClusterForNewChain | kernel/system_tree/fs/fat/fat_fs.cpp:729-733 | with no free cluster a new chain fails with OUT_OF_RESOURCE |
| FatFs.StartShortening | kernel/system_tree/fs/fat/fat_fs.cpp:724-727 | the loop starts at the chain's first cluster when shortening |
| FatFs.MarkEndStep | kernel/system_tree/fs/fat/fat_fs.cpp:743-748 | at the new length the entry gets the end-of-chain marker and the walk follows the old link |
| FatFs.FreeStep | kernel/system_tree/fs/fat/fat_fs.cpp:749-754 | past the new length the cluster is freed and the walk follows the old link |
| FatFs.AddStep | kernel/system_tree/fs/fat/fat_fs.cpp:755-764 | before the new length and past the old one a free cluster is linked and marked as the end |
| FatFs.Relink | kernel/system_tree/fs/fat/fat_fs.cpp:762 | linking the current cluster to a new one and marking that one changes those two entries only |
| FatFs.ChainExtended | kernel/system_tree/fs/fat/fat_fs.cpp:755-764 | a chain whose last cluster links to a new marked cluster is one cluster longer |
| FatFs.AddFailedStep | kernel/system_tree/fs/fat/fat_fs.cpp:758 | with no free cluster the loop stops with OUT_OF_RESOURCE and the chain as it stands |
| FatFs.WalkStep | kernel/system_tree/fs/fat/fat_fs.cpp:765-769 | inside both lengths the loop only follows the chain |
| FatFs.LoopFinish | kernel/system_tree/fs/fat/fat_fs.cpp:740 | when the loop ends the chain has the new length or the volume is full |
| FatFs.ChainLoopAsWritten | kernel/system_tree/fs/fat/fat_fs.cpp:740-773 | the loop as written keeps the table's length |
| FatFs.ChangeChainAsWritten | kernel/system_tree/fs/fat/fat_fs.cpp:702-787 | change_file_chain_length as written keeps the table's length |
| FatFs.NewChainOfTwoGetsOneCluster | kernel/system_tree/fs/fat/fat_fs.cpp:755-764 | as written, a new file given two clusters on an empty FAT16 table gets cluster 2 linked to itself and then marked, a chain of one |
| FatFile.ChainLength | kernel/system_tree/fs/fat/fat_file.cpp:553-575 | a size needs no cluster iff it is 0, otherwise the fewest clusters whose bytes reach it |
| FatFile.ChainLengthFewest | kernel/system_tree/fs/fat/fat_file.cpp:556-570 | no shorter chain holds the size |
| FatFile.DirectorySize | kernel/system_tree/fs/fat/fat_file.cpp:545-551 | a directory's size is rounded up to whole clusters, by less than one cluster, and needs the same chain length |
| FatFile.ChainOfWholeClusters | kernel/system_tree/fs/fat/fat_file.cpp:79-81 | a directory sized as its counted clusters needs exactly that many clusters |
| FatFile.ReadBytesCheck | kernel/system_tree/fs/fat/fat_file.cpp:113-138 | read_bytes goes ahead iff there is a buffer, the range lies inside the file and fits the buffer; otherwise INVALID_PARAM |
| FatFile.TruncatedStartIsFree | kernel/system_tree/fs/fat/fat_file.cpp:578-600 | as written, a file cut to size 0 keeps as its first cluster the one its chain started at, which is nonzero and now free, while its chain is empty |
| FatFile.FatFile.constructor | kernel/system_tree/fs/fat/fat_file.cpp:30-86 | a FAT12/16 root directory gets first cluster 0 and the root area's size; any other directory gets the size of its counted chain; a plain file keeps its directory entry; the object describes the file's chain |
| FatFile.FatFile.SetFileSizeNoWrite | kernel/system_tree/fs/fat/fat_file.cpp:507-634 | the small root directory gives INVALID_OP; sizes over 4GiB and directories over 65535 entries give INVALID_PARAM and change nothing; otherwise the chain is resized to the clusters the new size needs, and on success the record takes the size and first cluster, is written to the parent folder with size 0 for a directory, and the folder's answer is returned |
| FatFile.FatFile.ResizeChain | kernel/system_tree/fs/fat/fat_file.cpp:578-585 | the chain is resized, or left as it is when its length does not change, and the first cluster handed back starts it |
| FatFile.FatFile.NewSize | kernel/system_tree/fs/fat/fat_file.cpp:536-551 | a plain file takes the requested size; a directory's is rounded up to whole clusters |
| FatFile.FatFile.GetDiskSectorFromOffset | kernel/system_tree/fs/fat/fat_file.cpp:649-707 | for the small root directory, the root area's start plus the offset; otherwise the sector is valid iff the file has the cluster holding it, and is that cluster's first sector plus the remainder |
| FatFile.FatFile.WalkTo | kernel/system_tree/fs/fat/fat_file.cpp:665-694 | walking n links succeeds iff the chain has an n-th cluster, and ends on it |
| FatFile.ChainLink | kernel/system_tree/fs/fat/fat_file.cpp:672-686 | following a chain, an entry is a normal cluster number iff another cluster follows, and then names it |
| FatFile.ResizeNothing | kernel/system_tree/fs/fat/fat_file.cpp:581-585 | a chain left at its length is its own resizing |
| FatNames.Widen | kernel/system_tree/fs/fat/fat_folder.cpp:623 | a name byte reaches is_valid_filename_char sign-extended: bytes from 0x80 up become 0xFF80 and above |
| FatNames.LongNamesAllowMore | kernel/system_tree/fs/fat/fat_folder.cpp:771-811 | a long name accepts exactly the short-name characters plus + , ; = [ ] space and dot, none of which a short name accepts |
| FatNames.Split83 | kernel/system_tree/fs/fat/fat_folder.cpp:578-614 | an accepted split has at most 8 bytes before the first dot and at most 3 after it |
| FatNames.ShortName | kernel/system_tree/fs/fat/fat_folder.cpp:567-659 | a name is refused when longer than 12, when it has no dot and more than 8 bytes, when its first dot is past 8, when more than 3 bytes follow the dot, or when any byte but the first dot is not a short-name character; an accepted name gives 11 short-name bytes |
| FatNames.FirstDotAsWritten | kernel/system_tree/fs/fat/fat_folder.cpp:585 | (as written) the dot find reports is the first dot of the name unless that dot is the last byte, which it never reports |
| FatNames.TrailingDotRefusedAsWritten | kernel/system_tree/fs/fat/fat_folder.cpp:585-598 | (as written) "ABC." is refused although the corrected split accepts it as ABC with an empty extension |
| FatNames.ShortNameAsWritten | kernel/system_tree/fs/fat/fat_folder.cpp:567-659 | as written, any short name produced is the intended one, and the two agree on every name that does not end in a dot |
| FatNames.InvalidCharRejected | kernel/system_tree/fs/fat/fat_folder.cpp:621-651 | a split whose parts hold a character a short name may not hold comes from a name with such a byte outside the first dot |
| FatNames.TrimField | kernel/system_tree/fs/fat/fat_folder.cpp:618-651 | padding a part with spaces and trimming them again gives the upper-cased part back |
| FatNames.TextOfFields | kernel/system_tree/fs/fat/fat_folder.cpp:618-651 | the two fields read back as the base, a dot and the extension when there is one, upper-cased |
| FatNames.ShortNameRoundTrip | kernel/system_tree/fs/fat/fat_folder.cpp:567-659 | an accepted name not ending in a dot reads back from its short form as itself in upper case |
| FatNames.ShortNameOfParts | kernel/system_tree/fs/fat/fat_folder.cpp:567-659 | a base of at most 8 and an extension of at most 3 short-name characters, with or without a dot, are accepted and laid out in their fields |
| FatNames.ShortNameIgnoresCase | kernel/system_tree/fs/fat/fat_folder.cpp:631-650 | a name and its upper-case form give the same short name |
| FatNames.PopulateShortName | kernel/system_tree/fs/fat/fat_folder.cpp:567-659 | populate_short_name succeeds iff the name has a short form, which it writes to the first 11 bytes with a zero after them |
| FatNames.CopyPart | kernel/system_tree/fs/fat/fat_folder.cpp:621-651 | each copy loop succeeds iff every byte of its part is a short-name character, writes the part's field and nothing outside it |
| FatNames.EntryBytesChars | kernel/system_tree/fs/fat/fat_folder.cpp:703-718 | the 13 characters of a long-name entry sit in its first_chars, next_chars and final_chars slots and read back as written |
| FatNames.EntryCount | kernel/system_tree/fs/fat/fat_folder.cpp:681-687 | a name of n characters takes the fewest 13-character entries that hold it |
| FatNames.LongEntries | kernel/system_tree/fs/fat/fat_folder.cpp:670-762 | long-name entries exist iff the name has 1 to 260 characters, all allowed in a long name |
| FatNames.LongNameOverrunsBuffer | kernel/system_tree/fs/fat/fat_folder.cpp:377 | as written, a name of 261 characters starts writing at index 20 of the 20-entry buffer, and the empty name at index 255 |
| FatNames.PopulateLongName | kernel/system_tree/fs/fat/fat_folder.cpp:670-762 | populate_long_name succeeds iff the name has long-name entries, and writes them, the checksum byte of each left as it was |
| FatNames.WriteLongChars | kernel/system_tree/fs/fat/fat_folder.cpp:694-733 | the loop succeeds iff every character is allowed in a long name, and then every entry holds its 13 characters |
| FatNames.WriteLongChar | kernel/system_tree/fs/fat/fat_folder.cpp:703-732 | one turn of the loop writes character i into its entry, and after every 13th character but the last moves to the entry before, blanked and numbered; the terminator slot of every entry is left alone |
| FatNames.LongNameRoundTrip | kernel/system_tree/fs/fat/fat_folder.cpp:670-762 | the entries of a name, read back from the last to the first, spell the name |
| FatNames.GenerateShortNameChecksum | kernel/system_tree/fs/fat/fat_folder.cpp:820-836 | the loop computes the rotate-right-and-add checksum of the 11 bytes |
| FatNames.RotateRightInjective | kernel/system_tree/fs/fat/fat_folder.cpp:830 | the one-bit rotation of the checksum sends different sums to different sums |
| FatNames.ChkSumSeesEveryByte | kernel/system_tree/fs/fat/fat_folder.cpp:820-836 | changing any one byte of a short name changes its checksum |
| FatNames.Decimal | kernel/system_tree/fs/fat/fat_folder.cpp:1181 | "%d" of n is one or more decimal digits, at most k digits below 10^k |
| FatNames.DecimalRoundTrip | kernel/system_tree/fs/fat/fat_folder.cpp:1181 | the digits read back as n |
| FatNames.AddNumericTailAsWritten | kernel/system_tree/fs/fat/fat_folder.cpp:1169-1198 | add_numeric_tail as written copies the number with its terminating zero; the name keeps its 11 bytes |
| FatNames.NumericTailClobbersExtension | kernel/system_tree/fs/fat/fat_folder.cpp:1183-1194 | with an 8-character base and suffix 1 the zero lands on the first byte of the extension |
| FatNames.AddNumericTail | kernel/system_tree/fs/fat/fat_folder.cpp:1169-1198 | the base cut to fit, then "~" and the digits of the suffix, all within the 8-byte base, the extension untouched |
| FatFolder.ZeroEntry | kernel/system_tree/fs/fat/fat_folder.cpp:1142 | the entry that marks the new end of the directory is 32 bytes whose first byte is 0 |
| FatFolder.Put | kernel/system_tree/fs/fat/fat_folder.cpp:873-912 | writing entry i replaces it, or adds it one past the end, and keeps every other entry |
| FatFolder.Overwrite | kernel/system_tree/fs/fat/fat_folder.cpp:1127-1135 | writing a run of entries from an index puts each where it belongs and keeps every entry outside the run |
| FatFolder.OverwriteStep | kernel/system_tree/fs/fat/fat_folder.cpp:1127-1135 | one more write extends the run of entries written |
| FatFolder.SoftCompareMissesCharacters | kernel/system_tree/fs/fat/fat_folder.cpp:848-864 | as written, the long-name entries of "AAAA" and "AAAB" compare equal though their fourth characters differ |
| FatFolder.SoftCompareBytes | kernel/system_tree/fs/fat/fat_folder.cpp:848-864 | the corrected comparison agrees iff every byte but the two zero fields and the checksum agrees |
| FatFolder.FreeRunStart | kernel/system_tree/fs/fat/fat_folder.cpp:1077-1090 | the start of the run of free entries ending before an index: every entry in it is free and the one before it is not |
| FatFolder.ScanFrom | kernel/system_tree/fs/fat/fat_folder.cpp:1071-1121 | the first loop finds room inside the table, fails to read only in a table shorter than 65535 entries, and runs out of turns only in one of 65535 |
| FatFolder.Scan | kernel/system_tree/fs/fat/fat_folder.cpp:1071-1121 | room found lies inside the table |
| FatFolder.FreeStep | kernel/system_tree/fs/fat/fat_folder.cpp:1077-1115 | a free entry lengthens the run by one and ends the search iff the run reaches the entries wanted |
| FatFolder.RunTooShort | kernel/system_tree/fs/fat/fat_folder.cpp:1092-1115 | a run shorter than the entries wanted does not end the search |
| FatFolder.ScanStops | kernel/system_tree/fs/fat/fat_folder.cpp:1071-1121 | room found is a run of free entries ending at the end marker or of the length wanted; no earlier index ended the search |
| FatFolder.ScanMeaning | kernel/system_tree/fs/fat/fat_folder.cpp:1071-1121 | room is found at the first index that ends the search; the read fails iff none does in a table shorter than 65535, and the turns run out iff none does in one of 65535 |
| FatFolder.InUseScan | kernel/system_tree/fs/fat/fat_folder.cpp:1071-1121 | a full table of entries in use leaves the loop out of turns with first index 0 |
| FatFolder.FullDirectoryOverwritten | kernel/system_tree/fs/fat/fat_folder.cpp:1071-1137 | as written, a full directory of 65535 entries in use is written over from entry 0, which is in use |
| FatFolder.PlacementAsWritten | kernel/system_tree/fs/fat/fat_folder.cpp:1071-1137 | as written, adding entries gives up only on a failed read; a search that finds room places them there, and one that runs out of turns still places them, not at the end |
| FatFolder.PlacedKeepsEntries | kernel/system_tree/fs/fat/fat_folder.cpp:1057-1153 | the new entries replace only free entries and entries past the end marker; entries before them are kept; when they fit they sit in order, followed by the end marker when it moved |
| FatFolder.OverwritesOnlyFree | kernel/system_tree/fs/fat/fat_folder.cpp:1123-1145 | writing over a run of free entries loses no entry in use |
| FatFolder.MarkFree | kernel/system_tree/fs/fat/fat_folder.cpp:1290-1303 | a freed entry has first byte 0xE5 and keeps the rest |
| FatFolder.LongRunStart | kernel/system_tree/fs/fat/fat_folder.cpp:1296-1317 | the start of the run of long-name entries before an index: each is a long-name entry and the one before it is not |
| FatFolder.FreedFrom | kernel/system_tree/fs/fat/fat_folder.cpp:1296-1317 | freeing a range keeps the table's length and shape |
| FatFolder.UnlinkFreesName | kernel/system_tree/fs/fat/fat_folder.cpp:1278-1330 | unlinking frees the short entry and every long-name entry just before it, stops at the first entry that is not one, and changes only first bytes |
| FatFolder.FreedFromStep | kernel/system_tree/fs/fat/fat_folder.cpp:1298-1304 | freeing one more entry below the run extends the freed range |
| FatFolder.UnlinkLongEntryReportsSuccess | kernel/system_tree/fs/fat/fat_folder.cpp:1287-1324 | as written, a long-name entry given as the short entry is left alone and NO_ERROR reported, since the INVALID_OP test repeats the failed condition |
| FatFolder.UnlinkAsWritten | kernel/system_tree/fs/fat/fat_folder.cpp:1287-1324 | as written, unlinking always reports success; from a long-name entry it frees nothing, from a short entry it frees what the intended unlink frees |
| FatFolder.ShortScan | kernel/system_tree/fs/fat/fat_folder.cpp:421-512 | the short-name scan finds the first entry with the 11 name bytes before the end marker; otherwise it stops at the end marker or one past the last entry |
| FatFolder.Match | kernel/system_tree/fs/fat/fat_folder.cpp:470-502 | one step of the long-name match advances the count by at most one |
| FatFolder.LongScan | kernel/system_tree/fs/fat/fat_folder.cpp:421-512 | a long-name lookup finds an entry in use, or stops at the end marker or one past the last entry |
| FatFolder.MatchKeepsMatched | kernel/system_tree/fs/fat/fat_folder.cpp:470-502 | a matching step keeps the entries matched so far a run of the name's entries with one checksum |
| FatFolder.LongScanSound | kernel/system_tree/fs/fat/fat_folder.cpp:421-512 | an entry found follows a run holding every entry of the name, each with the short entry's checksum |
| FatFolder.RunFinishes | kernel/system_tree/fs/fat/fat_folder.cpp:449-502 | once inside the name the corrected scan matches it to its short entry |
| FatFolder.StartsAt | kernel/system_tree/fs/fat/fat_folder.cpp:470-502 | the corrected scan starts the name at its first entry whatever state it reaches it in |
| FatFolder.LongScanComplete | kernel/system_tree/fs/fat/fat_folder.cpp:421-512 | the corrected scan finds a name that lies before any end marker, at the latest at its own short entry |
| FatFolder.StrayFirstEntryHidesName | kernel/system_tree/fs/fat/fat_folder.cpp:470-502 | as written, a stray copy of a name's first entry before the name hides it; the corrected scan finds it |
| FatFolder.LookupLongName | kernel/system_tree/fs/fat/fat_folder.cpp:365-521 | a long name lying before any end marker is found, and what is found is the short entry after a run holding the name with its checksum |
| FatFolder.Folder.constructor | kernel/system_tree/fs/fat/fat_folder.cpp:19-31 | the folder holds the directory's entries |
| FatFolder.Folder.ReadOneDirEntry | kernel/system_tree/fs/fat/fat_folder.cpp:531-555 | reading succeeds iff the index lies inside the directory and gives that entry; otherwise INVALID_PARAM |
| FatFolder.Folder.WriteFde | kernel/system_tree/fs/fat/fat_folder.cpp:873-912 | an index the directory can reach is replaced or added; otherwise the file cannot grow and nothing changes |
| FatFolder.Folder.AddDirectoryEntries | kernel/system_tree/fs/fat/fat_folder.cpp:1057-1153 | a failed read gives INVALID_PARAM and a search out of turns OUT_OF_RESOURCE, changing nothing; otherwise the entries go where the scan placed them, the end marker moves behind them when they were written at the end, and new_idx is the last of them |
| FatFolder.Folder.FindSpace | kernel/system_tree/fs/fat/fat_folder.cpp:1071-1121 | the loop finds the room the scan defines |
| FatFolder.Folder.GetDirEntry | kernel/system_tree/fs/fat/fat_folder.cpp:365-521 | a raw short name without bytes gives INVALID_PARAM; a valid 8.3 name or a raw short name is looked up by its short entry, any other valid long name by its long-name entries, and an invalid name is NOT_FOUND |
| FatFolder.Folder.FindShortName | kernel/system_tree/fs/fat/fat_folder.cpp:421-512 | the loop gives the short-name scan's result |
| FatFolder.Folder.FindLongName | kernel/system_tree/fs/fat/fat_folder.cpp:421-512 | the loop gives the corrected long-name scan's result |
| FatFolder.Folder.UnlinkFdes | kernel/system_tree/fs/fat/fat_folder.cpp:1278-1330 | an index past the directory fails; a long-name entry gives INVALID_OP and changes nothing; a short entry is freed with the long-name entries before it |
| FatFolder.Folder.FreeLongEntries | kernel/system_tree/fs/fat/fat_folder.cpp:1296-1317 | the loop frees the long-name entries below the short entry down to the first that is not one |
| FatFolder.Folder.WriteEntries | kernel/system_tree/fs/fat/fat_folder.cpp:1127-1135 | the second loop writes the entries from the first index on, stopping at the first that does not fit |
| Rtc.DecodeBcdByte | kernel/devices/legacy/rtc/rtc.cpp:137 | DECODE_BCD_BYTE of any byte is at most 165; for a valid BCD byte the value is below 100 and re-encodes to the same byte |
| Rtc.BcdRoundTrip | kernel/devices/legacy/rtc/rtc.cpp:137 | decoding the BCD encoding of every value below 100 gives the value back |
| Rtc.ModeFromStatusB | kernel/devices/legacy/rtc/rtc.cpp:99-101 | BCD mode iff bit 2 of status register B is clear; 12-hour mode iff bit 1 is clear |
| Rtc.DecodeHours | kernel/devices/legacy/rtc/rtc.cpp:193-216 | in 12-hour mode bit 7 is the PM flag and adds 12 to the value of the low seven bits; in 24-hour mode the register is decoded as it is |
| Rtc.DecodeTime | kernel/devices/legacy/rtc/rtc.cpp:185-226 | nanoseconds are 0 and the year is 2000 plus the year register; in binary mode fields are copied; in BCD mode a BCD year re-encodes to the register |
| Rtc.GetCurrentTime | kernel/devices/legacy/rtc/rtc.cpp:140-233 | over a sequence of double reads, a time is produced iff some attempt is consistent, and it is the decoding of the first consistent one |
| Rtc.MismatchRetries | kernel/devices/legacy/rtc/rtc.cpp:172-181 | an attempt whose two reads differ or that saw the update flag is discarded and the next attempt decides |
| Rtc.DecodeBcd24Hour | kernel/devices/legacy/rtc/rtc.cpp:185-205 | a 24-hour BCD clock holding the BCD encoding of a time in 2000-2099 decodes to exactly that time |
| Ps2Device.RunAppend | kernel/devices/legacy/ps2/ps2_device.cpp:271-401 | decoding two runs of bytes one after the other is decoding their concatenation |
| Ps2Device.PauseBytesSwallowed | kernel/devices/legacy/ps2/ps2_device.cpp:276-286 | once a pause sequence has started, its remaining bytes make no event and only advance the pause count, which returns to 0 at 8 |
| Ps2Device.PauseCountBounded | kernel/devices/legacy/ps2/ps2_device.cpp:276-286 | the pause count stays below 8, and leaves 0 only on the byte 0xE1 |
| Ps2Device.PauseSequence | kernel/devices/legacy/ps2/ps2_device.cpp:276-286 | 0xE1 and the seven bytes after it make no event and leave the decoder as it was |
| Ps2Device.KeyCodeClearsFlags | kernel/devices/legacy/ps2/ps2_device.cpp:369-399 | a key byte clears both the release and the special flag, and is looked up in the special table iff 0xE0 came before it |
| Ps2Device.RunOne | kernel/devices/legacy/ps2/ps2_device.cpp:271-401 | one byte decodes as one step |
| Ps2Device.RunPrefix | kernel/devices/legacy/ps2/ps2_device.cpp:305-355 | a prefix byte that makes no event carries its flags into the rest of the run |
| Ps2Device.KeySequences | kernel/devices/legacy/ps2/ps2_device.cpp:292-399 | a key byte gives a key-down event, 0xF0 then the byte a key-up, 0xE0 and 0xF0 then the byte a special key-up; each leaves the decoder idle with the key's modifier update |
| Ps2Device.ModifiersTrackKeys | kernel/devices/legacy/ps2/ps2_device.cpp:310-350 | 0x12 and 0x59 set and clear the left and right shift, 0x14 and 0xE0 0x14 the left and right control, 0x11 and 0xE0 0x11 the left and right alt |
| Ps2Device.Ps2Keyboard.constructor | kernel/devices/legacy/ps2/ps2_device.cpp:210-219 | a new keyboard starts with no release, special or pause state pending and no events |
| Ps2Device.Ps2Keyboard.HandleInterruptSlow | kernel/devices/legacy/ps2/ps2_device.cpp:265-404 | the bytes waiting at the data port are decoded in order; the decoder's state and the key events are those of the whole run |
| Ps2Device.Ps2Keyboard.HandleScancode | kernel/devices/legacy/ps2/ps2_device.cpp:273-400 | one byte updates the decoder and appends its key events |
| GenTerminal.NoTranslationIsIdentity | kernel/devices/generic/gen_terminal.cpp:241-273 | with no output newline mode the screen gets the string unchanged |
| GenTerminal.LfToCrlfRoundTrip | kernel/devices/generic/gen_terminal.cpp:256-260 | LF_TO_CRLF adds exactly one CR before every LF, and collapsing CR LF pairs gives the string back |
| GenTerminal.CrToCrlfRoundTrip | kernel/devices/generic/gen_terminal.cpp:264-268 | CR_TO_CRLF adds exactly one LF after every CR, and dropping it gives the string back |
| GenTerminal.InputKey | kernel/devices/generic/gen_terminal.cpp:135-139 | CR becomes LF exactly when input_return_is_newline is set; other keys are kept |
| GenTerminal.KeyStepKeepsRoom | kernel/devices/generic/gen_terminal.cpp:141-197 | the pending line never reaches the buffer's last slot: it is sent on first |
| GenTerminal.BackspaceErases | kernel/devices/generic/gen_terminal.cpp:147-174 | backspace drops the last pending character and echoes "\b \b", and does nothing on an empty line; 0x7F acts as backspace when char_7f_is_backspace is set and is dropped otherwise |
| GenTerminal.NewlineFlushesLine | kernel/devices/generic/gen_terminal.cpp:176-197 | a newline is stored and echoed, and the whole line with it is sent on and cleared |
| GenTerminal.FullBufferFlushes | kernel/devices/generic/gen_terminal.cpp:176-197 | a character that fills the buffer sends the line on without a newline |
| GenTerminal.TypedTextAccumulates | kernel/devices/generic/gen_terminal.cpp:176-184 | ordinary characters that fit accumulate in the line and are echoed as typed, and nothing is sent |
| GenTerminal.TypedLineIsSent | kernel/devices/generic/gen_terminal.cpp:176-197 | typing a line and pressing return sends exactly that line and its newline, and leaves the line empty |
| GenTerminal.FeedAppend | kernel/devices/generic/gen_terminal.cpp:121-207 | feeding two runs of keys one after the other is feeding their concatenation |
| GenTerminal.Terminal.constructor | kernel/devices/generic/gen_terminal.cpp:22-30 | a new terminal has the given keyboard pipe and options, an empty line and nothing written |
| GenTerminal.Terminal.Start | kernel/devices/generic/gen_terminal.cpp:32-44 | start sets the device OK and changes nothing else |
| GenTerminal.Terminal.Stop | kernel/devices/generic/gen_terminal.cpp:46-58 | stop sets the device STOPPED and changes nothing else |
| GenTerminal.Terminal.ResetDevice | kernel/devices/generic/gen_terminal.cpp:60-77 | reset returns the options to their defaults and leaves the device STOPPED |
| GenTerminal.Terminal.SetFilteringOpts | kernel/devices/generic/gen_terminal.cpp:213-226 | the options are replaced, and the pending line is discarded iff line discipline is switched on or off |
| GenTerminal.Terminal.WriteString | kernel/devices/generic/gen_terminal.cpp:241-273 | the screen gets the string translated by the output newline mode when the device is OK, and nothing otherwise |
| GenTerminal.Terminal.HandleCharacter | kernel/devices/generic/gen_terminal.cpp:121-207 | a key is ignored unless the device is OK; in line discipline it edits, echoes and perhaps sends the pending line as one key step says; otherwise it goes straight to the keyboard pipe |
| GenKeyboard.GetKeyPropsCases | kernel/devices/generic/gen_keyboard.cpp:28-42 | the lookup gives the table's entry for a code inside the table, and the blank entry for a null table or a code at or past tab_len |
| GenKeyboard.TranslateKey | kernel/devices/generic/gen_keyboard.cpp:58-86 | a nonzero character only comes from a table entry for the key with no alt, control or print-screen down; with none of those down it is that entry's shifted character when either shift is down and its normal one otherwise |
| GenKeyboard.ShiftSidesAgree | kernel/devices/generic/gen_keyboard.cpp:78-79 | the left and the right shift key give the same character |
| GenKeyboard.OutOfTableIsZero | kernel/devices/generic/gen_keyboard.cpp:35-64 | a key outside the table never produces a character |
| GenKeyboard.GuiKeysIgnored | kernel/devices/generic/gen_keyboard.cpp:67-80 | the GUI keys have no effect on the character produced |
| XhciPort.CalculateCurrentStatus | kernel/devices/usb/controllers/usb_xhci_port.cpp:158-206 | the status is decided, each case as an iff, by power, connection, enable, reset and then the link state (polling 7, suspended 6, otherwise enabled) |
| XhciPort.GetDefaultMaxPacketSize | kernel/devices/usb/controllers/usb_xhci_port.cpp:230-300 | without protocol speed IDs the port speed decides the packet size (high speed 64, super speed 512, otherwise 8); with speed IDs the lookup reaches the unfinished-code path exactly when the port's speed is listed, and otherwise gives 8 |
| XhciPort.RootPort.constructor | kernel/devices/usb/controllers/usb_xhci_port.cpp:39-79 | a port whose ID is outside the capability's range keeps the invalid default state; a valid one records its ID, slot type and whether it is USB 3 |
| XhciPort.RootPort.PortStatusChangeEvent | kernel/devices/usb/controllers/usb_xhci_port.cpp:90-153 | the new status is remembered; nothing happens when it did not change; otherwise powered off, suspended and unnamed states reach unfinished code, a disabled USB 2 port in link state 7 is reset to start polling, an enabled port gets a device core, and other states do nothing |
| PciIrq.FirstUsablePreference | kernel/devices/pci/pci_legacy_interrupts.cpp:204-255 | the result is the first unused preference, from the given index on, that the device offers, and None exactly when there is none |
| PciIrq.ChooseSpec | kernel/devices/pci/pci_legacy_interrupts.cpp:187-263 | when a preference is offered it is returned and crossed out (-1) in the table; otherwise the first offered IRQ is returned and the table is unchanged |
| PciIrq.UsedPreferenceNotReused | kernel/devices/pci/pci_legacy_interrupts.cpp:240-245 | a preference once chosen is crossed out, so a later call never chooses it as a preference again |
| PciIrq.IrqPreferences.constructor | kernel/devices/pci/pci_legacy_interrupts.cpp:76-77 | the preference table starts as 10, 11, 3, 5, 6, 7 |
| PciIrq.IrqPreferences.ChoseInterrupt | kernel/devices/pci/pci_legacy_interrupts.cpp:187-263 | the loop over preferences and offered IRQs returns the chosen IRQ and leaves the table exactly as the specification says |
| XhciTrbRing.LinkNeverQueued | kernel/devices/usb/controllers/usb_xhci_trb_ring.cpp:194-217 | neither a transfer ring nor a command ring accepts a link TRB |
| XhciTrbRing.Queue | kernel/devices/usb/controllers/usb_xhci_trb_ring.cpp:115-162 | queueing keeps the ring's shape: one link TRB in the last slot and the enqueue index on another |
| XhciTrbRing.QueueMeaning | kernel/devices/usb/controllers/usb_xhci_trb_ring.cpp:115-162 | a TRB is accepted iff it is present, valid for the ring and its slot's cycle bit is clear; it is stored with the producer cycle state at the enqueue index, which moves on, wrapping with the cycle state toggled at the link TRB; no other slot changes, and a refused TRB changes nothing |
| XhciTrbRing.QueueLaps | kernel/devices/usb/controllers/usb_xhci_trb_ring.cpp:131-153 | a ring stays on its first lap or, once it has wrapped, refuses every TRB, since no cycle bit is ever cleared |
| XhciTrbRing.QueueAll | kernel/devices/usb/controllers/usb_xhci_trb_ring.cpp:261-268 | queueing a run of TRBs keeps the ring's shape |
| XhciTrbRing.QueueAllStep | kernel/devices/usb/controllers/usb_xhci_trb_ring.cpp:263-268 | queueing one more TRB extends the run |
| XhciTrbRing.NoInterrupts | kernel/devices/usb/controllers/usb_xhci_trb_ring.cpp:260-266 | every setup and data TRB is queued with interrupt-on-completion cleared, nothing else changed |
| XhciTrbRing.PositionAsWrittenMisplaces | kernel/devices/usb/controllers/usb_xhci_trb_ring.cpp:463-480 | as written, the address one past the segment converts to position segment_size and an address 2^36 past the base converts to position 0 |
| XhciTrbRing.PositionAsWritten | kernel/devices/usb/controllers/usb_xhci_trb_ring.cpp:463-480 | as written, a position not refused is at most the segment size (one too many), and an address inside the segment converts to its corrected position |
| XhciTrbRing.Position | kernel/devices/usb/controllers/usb_xhci_trb_ring.cpp:463-480 | corrected, an address has a position iff it lies inside the segment, and the position is below the segment size |
| XhciTrbRing.PositionOfAddress | kernel/devices/usb/controllers/usb_xhci_trb_ring.cpp:463-480 | the address of each position converts back to that position |
| XhciTrbRing.TrbRing.constructor | kernel/devices/usb/controllers/usb_xhci_trb_ring.cpp:40-86 | a new ring has cleared TRBs, a link TRB back to the base in its last slot, enqueue index 0, cycle state set and empty command queues |
| XhciTrbRing.TrbRing.QueueTrb | kernel/devices/usb/controllers/usb_xhci_trb_ring.cpp:115-162 | the ring takes the new state of the queueing function, and the command queues are kept |
| XhciTrbRing.TrbRing.QueueCtrlTransfer | kernel/devices/usb/controllers/usb_xhci_trb_ring.cpp:238-279 | bad data, a missing setup or status TRB, or more data TRBs than the segment holds less three are refused with nothing changed; otherwise the setup and data TRBs are queued, the status TRB's outcome is the result, and its physical address is returned |
| XhciTrbRing.TrbRing.QueueRegularTransfer | kernel/devices/usb/controllers/usb_xhci_trb_ring.cpp:297-334 | a transfer of 2^17 bytes or more is refused; otherwise one normal TRB is queued and its physical address returned |
| XhciTrbRing.TrbRing.QueueCommand | kernel/devices/usb/controllers/usb_xhci_trb_ring.cpp:363-384 | the command's TRB is queued and, when accepted, the command joins the queue of its position |
| XhciTrbRing.TrbRing.RetrieveCommand | kernel/devices/usb/controllers/usb_xhci_trb_ring.cpp:395-415 | the oldest command queued at the position of the TRB named is returned and removed; an address outside the segment or an empty queue gives none |
| XhciTrbRing.Dequeue | kernel/devices/usb/controllers/usb_xhci_trb_ring.cpp:558-570 | dequeueing moves the index within the ring and keeps the slots |
| XhciTrbRing.Slot | kernel/devices/usb/controllers/usb_xhci_trb_ring.cpp:563-570 | the slot a number of places after the dequeue index lies in the ring |
| XhciTrbRing.Produce | kernel/devices/usb/controllers/usb_xhci_trb_ring.cpp:544-591 | the controller's writes keep the ring's size, dequeue index and consumer cycle state |
| XhciTrbRing.DequeueN | kernel/devices/usb/controllers/usb_xhci_trb_ring.cpp:544-591 | dequeueing k times yields k TRBs and keeps the index in the ring |
| XhciTrbRing.Stripped | kernel/devices/usb/controllers/usb_xhci_trb_ring.cpp:561 | leaving the cycle bit out keeps the number of TRBs |
| XhciTrbRing.ProducedAt | kernel/devices/usb/controllers/usb_xhci_trb_ring.cpp:544-591 | the i-th event written sits i slots after the dequeue index with that lap's cycle bit |
| XhciTrbRing.DrainFrom | kernel/devices/usb/controllers/usb_xhci_trb_ring.cpp:544-591 | dequeueing the written events from any point yields them in order |
| XhciTrbRing.EventsDequeuedInOrder | kernel/devices/usb/controllers/usb_xhci_trb_ring.cpp:544-591 | up to a full lap of events written into a caught-up ring are dequeued in the order written, none lost or repeated, and then the next dequeue finds nothing |
| XhciTrbRing.CaughtUpAfter | kernel/devices/usb/controllers/usb_xhci_trb_ring.cpp:563-570 | after the events are read the ring is caught up again |
| XhciTrbRing.EventRingReader.constructor | kernel/devices/usb/controllers/usb_xhci_trb_ring.cpp:493-529 | a new event ring has 16 to 4096 cleared TRBs, the consumer cycle state set and index 0, so it is caught up |
| XhciTrbRing.EventRingReader.DequeueTrb | kernel/devices/usb/controllers/usb_xhci_trb_ring.cpp:544-602 | a TRB whose cycle bit matches the consumer state is returned and the index moves on, wrapping with the state toggled; the position is reported to the controller when nothing more is left to read |
| UsbCore.GetDescriptor | kernel/devices/usb/usb_gen_device_core.cpp:31-55 | A GET_DESCRIPTOR request carries the caller's request type, language id and length, and its value holds the descriptor type in its high byte and the index in its low byte |
| UsbCore.GetDescriptorInjective | kernel/devices/usb/usb_gen_device_core.cpp:44-47 | Requests for different descriptor types or indices never coincide |
| UsbCore.Slice | kernel/devices/usb/usb_gen_device_core.cpp:238-288 | Copying a descriptor structure out of the buffer gives exactly the structure's size in bytes, each the buffer's byte at that position (zero past the end) |
| UsbCore.Fit | kernel/devices/usb/usb_gen_device_core.cpp:203-226 | A zeroed buffer of n bytes after the device's reply: exactly n bytes, the reply's bytes first and zeros after a short reply |
| UsbCore.Start | kernel/devices/usb/usb_gen_device_core.cpp:235-244 | Before the first descriptor after the configuration descriptor no interface has been found and every interface slot is empty |
| UsbCore.DescriptorStep | kernel/devices/usb/usb_gen_device_core.cpp:246-314 | One descriptor of the walk keeps the walker's bookkeeping consistent: the current interface and endpoint stay within the slots and counts |
| UsbCore.ReadConfigDescriptor | kernel/devices/usb/usb_gen_device_core.cpp:199-329 | read_config_descriptor sends the short request and, if it succeeds, the full-length request; it succeeds exactly when both reads and the walk succeed, and then the configuration is the one the walk describes |
| UsbCore.WalkDescriptors | kernel/devices/usb/usb_gen_device_core.cpp:246-320 | The descriptor loop and the final check on the last interface as a method: it succeeds exactly when the walk does, with the walk's interfaces and other descriptors |
| UsbCore.StepKeepsCounted | kernel/devices/usb/usb_gen_device_core.cpp:252-291 | Each accepted descriptor keeps every finished interface holding exactly the number of endpoints it declares |
| UsbCore.WalkFindsAllEndpoints | kernel/devices/usb/usb_gen_device_core.cpp:246-320 | A walk that succeeds leaves every interface holding exactly the endpoints it declares |
| UsbCore.ReadConfigFindsAllEndpoints | kernel/devices/usb/usb_gen_device_core.cpp:199-329 | A successful read_config_descriptor leaves every interface it filled in with exactly the endpoints it declares |
| UsbCore.StepKeepsOthers | kernel/devices/usb/usb_gen_device_core.cpp:293-309 | Each accepted descriptor keeps the other-descriptor lists made of offsets of descriptors that are neither interfaces nor endpoints |
| UsbCore.WalkOthersAreHeaders | kernel/devices/usb/usb_gen_device_core.cpp:246-314 | After a successful walk every entry of the other-descriptor lists is the offset of a descriptor header on the walk that is neither an interface nor an endpoint |
| UsbCore.ReadConfigOthersAreHeaders | kernel/devices/usb/usb_gen_device_core.cpp:199-329 | After a successful read, the other descriptors are headers reached by following each length from the end of the configuration descriptor |
| UsbCore.EndpointBeforeInterfaceFails | kernel/devices/usb/usb_gen_device_core.cpp:278-284 | An endpoint descriptor before any interface descriptor makes the whole read fail |
| UsbCore.TooManyEndpointsFails | kernel/devices/usb/usb_gen_device_core.cpp:278-284 | An endpoint descriptor beyond the number the current interface declares makes the whole read fail |
| UsbCore.MissingEndpointsFails | kernel/devices/usb/usb_gen_device_core.cpp:255-260 | A new interface descriptor while the current interface still lacks endpoints makes the whole read fail |
| UsbCore.ZeroLengthHeaderStalls | kernel/devices/usb/usb_gen_device_core.cpp:312-313 | As written, a descriptor header of length 0 leaves the offset where it is, so the loop never ends; the walk as modelled refuses it |
| UsbCore.ExtraInterfaceOverruns | kernel/devices/usb/usb_gen_device_core.cpp:262-269 | As written, one interface descriptor more than the configuration declares is copied past the end of the interface array; the walk as modelled refuses it |
| UsbCore.DescriptorStepAsWritten | kernel/devices/usb/usb_gen_device_core.cpp:246-314 | as written, a step either writes an interface past the interface array, or accepts exactly what the checked step accepts and moves by the header's length, or rejects exactly what it rejects |
| UsbCore.GenericCore.SetConfiguration | kernel/devices/usb/usb_gen_device_core.cpp:63-97 | set_configuration succeeds exactly when the index is below the number of configurations and the device accepts; it sends SET_CONFIGURATION with that configuration's own index only in range, and the active configuration changes only on success |
| HidParser.ItemDataIsItemBytes | kernel/devices/usb/hid/hid_input_descriptor_parser.cpp:86-95 | The data of a short item, masked to its length, is exactly the little-endian value of the item's own data bytes; the bytes after the item never leak into it (the corrected mask for a four-byte item) |
| HidParser.FourByteItemsReadAsZero | kernel/devices/usb/hid/hid_input_descriptor_parser.cpp:92-95 | As written, the 32-bit shift by 32 makes the mask of a four-byte item zero, so every four-byte item reads as 0; a Logical Maximum of 0x10000 is the witness |
| HidParser.ItemDataAsWritten | kernel/devices/usb/hid/hid_input_descriptor_parser.cpp:92-95 | as written, item data of up to three bytes is masked exactly as intended, while a four-byte item reads as 0 instead of its whole word |
| HidParser.ItemAt | kernel/devices/usb/hid/hid_input_descriptor_parser.cpp:60-95 | The item at an offset keeps its header byte, has 0, 1, 2 or 4 data bytes and data below 256 to that length, and has four bytes exactly when the size code is 3 |
| HidParser.SignedData | kernel/devices/usb/hid/hid_input_descriptor_parser.cpp:263-280 | The signed reading of item data lies in 32-bit signed range; a one- or two-byte value with its top bit set is sign-extended, otherwise it is the value itself; a four-byte value is reinterpreted as 32-bit signed |
| HidParser.GlobalItem | kernel/devices/usb/hid/hid_input_descriptor_parser.cpp:260-360 | A global item faults exactly when the state stack is empty and the tag needs its top; Report ID, unknown tags and a Pop of the last state fail; Push saves a copy of the state in force, Pop removes it, the other tags set one field of the top state and unknown tags leave the stack alone |
| HidParser.PushPopRestores | kernel/devices/usb/hid/hid_input_descriptor_parser.cpp:335-348 | Pop after Push restores the state stack, whatever global item came in between |
| HidParser.UsageWithPage | kernel/devices/usb/hid/hid_input_descriptor_parser.cpp:390-397 | A one- or two-byte usage is combined with the usage page in force: its low 16 bits are the usage and its high 16 bits are the page modulo 2^16 |
| HidParser.OpenRange | kernel/devices/usb/hid/hid_input_descriptor_parser.cpp:407-428 | Setting a usage minimum or maximum leaves a range entry at the back of the usage queue |
| HidParser.RangeFromMinAndMax | kernel/devices/usb/hid/hid_input_descriptor_parser.cpp:407-428 | A Usage Minimum and a Usage Maximum, in either order, fill a single range entry at the back of the queue |
| HidParser.LocalItem | kernel/devices/usb/hid/hid_input_descriptor_parser.cpp:373-504 | A local item faults exactly when no delimiter has been seen, it is a short usage item and the global stack is empty; after a delimiter everything is ignored and succeeds; a usage is queued with its page; a minimum or maximum fills a range; unknown tags fail |
| HidParser.NextValue | kernel/devices/usb/hid/hid_input_descriptor_parser.cpp:602-652 | Taking a value from an empty queue gives 0; otherwise the front entry's current value; a single value is removed unless it is the last one, which stays |
| HidParser.Values | kernel/devices/usb/hid/hid_input_descriptor_parser.cpp:602-652 | k requests take exactly k values from a queue |
| HidParser.LoneRangeCountsUp | kernel/devices/usb/hid/hid_input_descriptor_parser.cpp:602-652 | A lone range counts up one value per request and then keeps returning its maximum |
| HidParser.RangeThenRest | kernel/devices/usb/hid/hid_input_descriptor_parser.cpp:602-652 | A range in front of other entries returns each of its values once, in order, and then hands over to the entries behind it |
| HidParser.SinglesRepeatLast | kernel/devices/usb/hid/hid_input_descriptor_parser.cpp:602-652 | A queue of single values returns them in order and then keeps repeating the last one |
| HidParser.SplitOffset | kernel/devices/usb/hid/hid_input_descriptor_parser.cpp:561-586 | A bit position's byte offset (kept in eight bits) and bit offset together give that position modulo 2048 |
| HidParser.NewField | kernel/devices/usb/hid/hid_input_descriptor_parser.cpp:515-595 | A new field records its kind, its flags, report_size in eight bits, both logical bounds and both physical bounds (the corrected copy), and starts at the report's running bit total modulo 2048 |
| HidParser.PhysicalMaximumLost | kernel/devices/usb/hid/hid_input_descriptor_parser.cpp:552-557 | As written the physical minimum is stored twice, so whenever a descriptor gives distinct physical bounds the field loses its physical maximum; the corrected field keeps it |
| HidParser.NewFieldAsWritten | kernel/devices/usb/hid/hid_input_descriptor_parser.cpp:552-557 | as written, the field is the intended one except that its physical maximum is the physical minimum |
| HidParser.NextField | kernel/devices/usb/hid/hid_input_descriptor_parser.cpp:527-589 | One field of a main item: the right kind, flags and size, placed at the running total; delimiters stay as they were, and an array or constant item does not consume usages |
| HidParser.FieldRun | kernel/devices/usb/hid/hid_input_descriptor_parser.cpp:527-589 | The loop over report_count yields exactly report_count fields; an array item leaves the usage queue untouched |
| HidParser.FieldRunStep | kernel/devices/usb/hid/hid_input_descriptor_parser.cpp:527-589 | One more turn of the field loop appends the next field built from the current usages and total |
| HidParser.Advance | kernel/devices/usb/hid/hid_input_descriptor_parser.cpp:561-586 | The bit position j fields of w bits after a start is start + j * w |
| HidParser.FieldRunOffsets | kernel/devices/usb/hid/hid_input_descriptor_parser.cpp:527-589 | Field j of a main item starts report_size bits after field j - 1, and the running total moves on by report_size bits per field, in 32 bits |
| HidParser.FieldRunOffsetStep | kernel/devices/usb/hid/hid_input_descriptor_parser.cpp:527-589 | The offsets of one more field follow those of the previous ones |
| HidParser.PackedStep | kernel/devices/usb/hid/hid_input_descriptor_parser.cpp:561-586 | A field placed at the running total keeps a report's fields packed back to back, with the total tracking their sizes in 32 bits |
| HidParser.AppendAt | kernel/devices/usb/hid/hid_input_descriptor_parser.cpp:587-590 | The collection tree with fields added to the current collection: that collection's fields are extended by them |
| HidParser.AppendAtNothing | kernel/devices/usb/hid/hid_input_descriptor_parser.cpp:587-590 | Adding no fields leaves the tree unchanged |
| HidParser.AppendAtTwice | kernel/devices/usb/hid/hid_input_descriptor_parser.cpp:587-590 | Adding two batches of fields in turn is adding them together |
| HidParser.AddChild | kernel/devices/usb/hid/hid_input_descriptor_parser.cpp:203-212 | A Collection item adds a child, last, under the current collection |
| HidParser.CloseReturnsToOpener | kernel/devices/usb/hid/hid_input_descriptor_parser.cpp:219-231 | Closing a collection returns the cursor to the collection it was opened in (the corrected End Collection) |
| HidParser.CountAppendAt | kernel/devices/usb/hid/hid_input_descriptor_parser.cpp:587-590 | Adding fields to a collection adds their number to the tree's field count |
| HidParser.CountAddChild | kernel/devices/usb/hid/hid_input_descriptor_parser.cpp:203-212 | Adding a child collection adds its fields to the tree's field count |
| HidParser.NestedCloseLosesCursor | kernel/devices/usb/hid/hid_input_descriptor_parser.cpp:219-231 | As written, End Collection cuts the parent link of the collection it returns to, so two nested collections closed in turn leave the cursor on no collection; the corrected cursor returns to the root |
| HidParser.EndCollectionAsWritten | kernel/devices/usb/hid/hid_input_descriptor_parser.cpp:219-231 | as written, End Collection never un-cuts a link; it leaves no current collection exactly at the root or below a cut link, and otherwise moves to the parent and cuts the parent's own link |
| HidParser.OpenAsWritten | kernel/devices/usb/hid/hid_input_descriptor_parser.cpp:203-212 | a Collection item moves the cursor to a new child of the current collection and cuts no link |
| HidParser.Extend | kernel/devices/usb/hid/hid_input_descriptor_parser.cpp:587-590 | The descriptor with fields added to the list of their kind and to the current collection; the other lists are untouched |
| HidParser.ExtendTwice | kernel/devices/usb/hid/hid_input_descriptor_parser.cpp:587-590 | Extending twice with the same kind at the same collection is extending once with both batches |
| HidParser.ExtendNothing | kernel/devices/usb/hid/hid_input_descriptor_parser.cpp:587-590 | Extending with no fields leaves the descriptor unchanged |
| HidParser.ListStep | kernel/devices/usb/hid/hid_input_descriptor_parser.cpp:561-586 | A field of the list's kind placed at its running total keeps a field list well formed |
| HidParser.WithBits | kernel/devices/usb/hid/hid_input_descriptor_parser.cpp:561-586 | Setting one report's running bit total leaves the other two reports' totals alone |
| HidParser.CoherentIsWellDecoded | kernel/devices/usb/hid/hid_input_descriptor_parser.cpp:41-118 | A coherent parser state holds a well-decoded descriptor: every list holds fields of its own kind, packed back to back, and the tree holds the same fields |
| HidParser.ExtendKeepsCoherent | kernel/devices/usb/hid/hid_input_descriptor_parser.cpp:587-590 | Adding to one list fields that keep that list well formed keeps the parser state coherent |
| HidParser.RunExtendsList | kernel/devices/usb/hid/hid_input_descriptor_parser.cpp:527-589 | The fields of a main item, appended to a well-formed list whose total they start from, keep it well formed with the run's new total |
| HidParser.RunStepExtendsList | kernel/devices/usb/hid/hid_input_descriptor_parser.cpp:527-589 | One more field of the loop keeps the extended list well formed |
| HidParser.RunFor | kernel/devices/usb/hid/hid_input_descriptor_parser.cpp:527-589 | A field-declaring item declares report_count fields of the state in force |
| HidParser.FieldsItemEffects | kernel/devices/usb/hid/hid_input_descriptor_parser.cpp:515-595 | An Input, Output or Feature item faults exactly when its checks fail; otherwise it keeps the cursor and globals, appends its fields to its own list and to the current collection, moves only its own report's total, and leaves the other lists and totals alone |
| HidParser.MainItemEffects | kernel/devices/usb/hid/hid_input_descriptor_parser.cpp:181-247 | A main item: field items fault exactly when their checks fail; the local state is cleared after a passing item; Collection adds a child holding the local usages and moves the cursor into it; End Collection moves the cursor to the parent; unknown tags fail and change nothing |
| HidParser.ItemStepEffects | kernel/devices/usb/hid/hid_input_descriptor_parser.cpp:135-168 | Any item fails with no current collection; only main items change the descriptor, the totals or the cursor; only global items change the globals; a type-3 item fails without changing anything |
| HidParser.FieldsItemDone | kernel/devices/usb/hid/hid_input_descriptor_parser.cpp:515-595 | A field-declaring item that passes its checks gives the state made of the fields, usage queue and total its loop produced |
| HidParser.DeclareFields | kernel/devices/usb/hid/hid_input_descriptor_parser.cpp:527-589 | The field loop as a method: its fields, usage queue and total are those of the specification of the run |
| HidParser.FieldsItemKeepsCoherent | kernel/devices/usb/hid/hid_input_descriptor_parser.cpp:515-595 | A field-declaring item keeps the parser state coherent |
| HidParser.MainItemKeepsCoherent | kernel/devices/usb/hid/hid_input_descriptor_parser.cpp:181-247 | Every main item keeps the parser state coherent |
| HidParser.ItemStepKeepsCoherent | kernel/devices/usb/hid/hid_input_descriptor_parser.cpp:135-168 | Every item keeps the parser state coherent |
| HidParser.ItemStepLocated | kernel/devices/usb/hid/hid_input_descriptor_parser.cpp:135-168 | Every item keeps the cursor on a collection of the tree |
| HidParser.ParseFrom | kernel/devices/usb/hid/hid_input_descriptor_parser.cpp:57-107 | The item loop: a parse that reports success only follows success of every item; a long item stops it with a fault at its offset |
| HidParser.ParseFromStep | kernel/devices/usb/hid/hid_input_descriptor_parser.cpp:57-107 | One turn of the item loop: a fault stops the parse at that item, a pass continues from the next item with the new state |
| HidParser.CoherentStep | kernel/devices/usb/hid/hid_input_descriptor_parser.cpp:57-107 | An item that passes leaves a coherent state and moves the offset forward |
| HidParser.ParseFromWellDecoded | kernel/devices/usb/hid/hid_input_descriptor_parser.cpp:57-107 | A parse that runs to the end of the buffer yields a well-decoded descriptor |
| HidParser.ParseFromStopsAtItem | kernel/devices/usb/hid/hid_input_descriptor_parser.cpp:57-107 | A parse that stops on a failed check or a long item stops at the start of an item |
| HidParser.Parse | kernel/devices/usb/hid/hid_input_descriptor_parser.cpp:41-118 | A descriptor parsed from a fresh parser is well decoded; a fault is at an item start; an empty buffer gives an empty descriptor that counts as success, and a long item first is a fault at offset 0 |
| HidParser.PushForgetsUsagePage | kernel/devices/usb/hid/hid_input_descriptor_parser.cpp:335-338 | As written, Push starts a default state instead of copying the one in force, so after Usage Page 1 and Push a one-byte Usage 0x30 is recorded as 0x30; the corrected Push gives 0x10030 |
| HidParser.GlobalItemAsWritten | kernel/devices/usb/hid/hid_input_descriptor_parser.cpp:335-338 | as written, every global tag but Push acts as intended, and Push succeeds by placing a default state, not a copy, on top of the unchanged stack |
| HidParser.AddNewField | kernel/devices/usb/hid/hid_input_descriptor_parser.cpp:515-595 | add_new_field as a method: its result is the specification of a field-declaring item |
| HidParser.HandleMainItem | kernel/devices/usb/hid/hid_input_descriptor_parser.cpp:181-247 | handle_main_item as a method: its result is the specification of a main item |
| HidParser.HandleItem | kernel/devices/usb/hid/hid_input_descriptor_parser.cpp:135-168 | handle_item as a method: its result is the specification of one item |
| HidParser.ParseDescriptor | kernel/devices/usb/hid/hid_input_descriptor_parser.cpp:41-118 | parse_descriptor as a method with its item loop: its outcome is the specification of the whole parse |
| VirtioQueue.ChainFlags | kernel/devices/virtio/virtio_queue.cpp:191-199 | A descriptor's flags mark it writable exactly when its buffer is device-writable, and chained exactly when another descriptor of the chain follows |
| VirtioQueue.FreeSlots | kernel/devices/virtio/virtio_queue.cpp:164-181 | The free-slot search returns at most the wanted number of slots, each inside the table and free (physical address 0) |
| VirtioQueue.FreeSlotsIncrease | kernel/devices/virtio/virtio_queue.cpp:164-181 | The free slots are found in increasing order, so no slot is chosen twice |
| VirtioQueue.FreeSlotsCount | kernel/devices/virtio/virtio_queue.cpp:164-183 | The search finds the wanted number of slots exactly when the table has that many free entries, and otherwise all of them |
| VirtioQueue.FreeSlotsFit | kernel/devices/virtio/virtio_queue.cpp:164-181 | The slots found never outnumber the table's entries |
| VirtioQueue.FindFreeSlots | kernel/devices/virtio/virtio_queue.cpp:164-181 | The search loop of send_buffers as a method: the lowest free slots, up to the number wanted |
| VirtioQueue.RetireChain | kernel/devices/virtio/virtio_queue.cpp:261-292 | The walk of one chain visits slots inside the table and credits each one |
| VirtioQueue.RetiredBytes | kernel/devices/virtio/virtio_queue.cpp:265-280 | The bytes credited to a chain never exceed the bytes the device says it wrote; a writable buffer gets no more than its length and a read-only one gets nothing |
| VirtioQueue.SentChainRetires | kernel/devices/virtio/virtio_queue.cpp:186-205 | A chain laid out by send_buffers is walked through exactly its slots, in the order they were filled |
| VirtioQueue.Cleared | kernel/devices/virtio/virtio_queue.cpp:283 | Freeing a chain's descriptors keeps the table's size |
| VirtioQueue.Releases | kernel/devices/virtio/virtio_queue.cpp:282 | One buffer is given back per slot of a retired chain |
| VirtioQueue.RetireFrom | kernel/devices/virtio/virtio_queue.cpp:261-292 | The inner loop's running state keeps the table's size |
| VirtioQueue.RetireChainLinks | kernel/devices/virtio/virtio_queue.cpp:265-291 | The walk of a chain depends only on the descriptors' lengths, flags and links, not on their addresses |
| VirtioQueue.RetireFromIsChain | kernel/devices/virtio/virtio_queue.cpp:261-292 | The inner loop with its running state retires exactly the chain the walk describes: it frees its descriptors in order and gives its buffers back in chain order after the earlier releases |
| VirtioQueue.RetireLast | kernel/devices/virtio/virtio_queue.cpp:285-289 | At a descriptor without NEXT the inner loop ends after giving back that buffer |
| VirtioQueue.RetireLink | kernel/devices/virtio/virtio_queue.cpp:282-291 | At a descriptor with NEXT the inner loop gives back that buffer, frees it and goes on at the linked descriptor |
| VirtioQueue.RetireCons | kernel/devices/virtio/virtio_queue.cpp:282-283 | The first slot of a chain is freed first and its buffer given back first |
| VirtioQueue.ReleasesAt | kernel/devices/virtio/virtio_queue.cpp:282 | The j-th buffer given back is the buffer recorded for the j-th slot of the chain, with that slot's credit |
| VirtioQueue.SendThenRetire | kernel/devices/virtio/virtio_queue.cpp:139-241 | When the device returns the head of a chain send_buffers placed, the walk retires exactly the chosen slots, gives back every buffer in the order it was sent, and credits no more than the device wrote |
| VirtioQueue.PendingStep | kernel/devices/virtio/virtio_queue.cpp:254-294 | Moving the used cursor on by one (modulo 2^16) leaves one element fewer to process |
| VirtioQueue.ProcessOnlyClears | kernel/devices/virtio/virtio_queue.cpp:254-295 | Processing the used ring only frees descriptors and only adds to the buffers already given back |
| VirtioQueue.ClearedOnlyClears | kernel/devices/virtio/virtio_queue.cpp:283 | Freeing a chain changes nothing but physical addresses, which become 0 |
| VirtioQueue.OnlyClearedTrans | kernel/devices/virtio/virtio_queue.cpp:254-295 | Freeing in two steps still only frees |
| VirtioQueue.ClearedKeepsFree | kernel/devices/virtio/virtio_queue.cpp:283 | A free descriptor stays free when a chain is freed |
| VirtioQueue.ClearedFrees | kernel/devices/virtio/virtio_queue.cpp:283 | Every slot of a retired chain ends up free |
| VirtioQueue.Fill | kernel/devices/virtio/virtio_queue.cpp:186-206 | Writing buffers into slots keeps the table's size |
| VirtioQueue.Record | kernel/devices/virtio/virtio_queue.cpp:193 | Recording buffer addresses keeps the address table's size |
| VirtioQueue.FillWrites | kernel/devices/virtio/virtio_queue.cpp:186-206 | Since the slots are all different, writing them one after another leaves each with its own buffer's descriptor and address and every other entry unchanged |
| VirtioQueue.FillSlots | kernel/devices/virtio/virtio_queue.cpp:186-206 | The filling loop of send_buffers: each chosen slot gets its buffer's address, length and write flag, a link to the next slot except the last, and its buffer's virtual address; other entries are unchanged |
| VirtioQueue.EnqueueChain | kernel/devices/virtio/virtio_queue.cpp:164-234 | The table work of send_buffers succeeds exactly when there are at least as many free descriptors as buffers; on failure nothing changes, and on success the lowest free slots are filled in order and chained |
| VirtioQueue.RetireElement | kernel/devices/virtio/virtio_queue.cpp:258-292 | The inner loop of process_used_ring as a method: it frees the chain's descriptors and gives back its buffers as the specification of the walk says, or reports that the walk left the table or did not end |
| VirtioQueue.VirtQueue.constructor | kernel/devices/virtio/virtio_queue.cpp:21-72 | A new queue has a zeroed descriptor table and available ring of the given size, available index 0 and used cursor 0 |
| VirtioQueue.VirtQueue.SendBuffers | kernel/devices/virtio/virtio_queue.cpp:139-241 | send_buffers fails, changing nothing and notifying nothing, exactly when there are no buffers or too few free descriptors; otherwise it fills and chains the lowest free slots, puts the head in the available ring at the index modulo the queue size, increments the index modulo 2^16 and notifies the device of the new index |
| VirtioQueue.VirtQueue.ProcessUsedRing | kernel/devices/virtio/virtio_queue.cpp:245-298 | process_used_ring retires each used-ring element since the last call, reading the ring at the cursor modulo the queue size (the corrected read), as the specification of the processing says; unless a chain is malformed it ends with the cursor at the device's used index |
| VirtioQueue.UsedCursorOverruns | kernel/devices/virtio/virtio_queue.cpp:258-294 | As written the used cursor indexes the used ring without reduction, so once queue_size elements have been used it points past the ring's end; the reduced cursor stays inside |
| VirtioQueue.UsedSlotAsWritten | kernel/devices/virtio/virtio_queue.cpp:258-294 | as written, the used-ring element read lies inside the ring exactly while the cursor is below the queue size, and is then the reduced one |
| SimpleShell.ScanQuoteParity | user/simple_shell/simple_shell.cpp:277-288 | the scan ends outside a quote exactly when the number of lone quotes it passes, starting from the given quote state, is even |
| SimpleShell.UnmatchedQuoteFails | user/simple_shell/simple_shell.cpp:317-325 | a command is accepted exactly when its lone quotes pair up |
| SimpleShell.Words | user/simple_shell/simple_shell.cpp:291-307 | without quotes the arguments are the non-empty space-free words of the command |
| SimpleShell.ScanWords | user/simple_shell/simple_shell.cpp:291-314 | from a position with no quotes after it the scan produces the current word and then the remaining words |
| SimpleShell.SpacesMakeNoArguments | user/simple_shell/simple_shell.cpp:269-314 | a quote-free command splits into its words at runs of spaces, leading and trailing spaces ignored, and an all-space command gives one empty argument |
| SimpleShell.ScanPlain | user/simple_shell/simple_shell.cpp:308-311 | characters that are neither spaces nor quotes are copied into the current argument |
| SimpleShell.DoubledQuoteIsLiteral | user/simple_shell/simple_shell.cpp:279-283 | a doubled quote inside a word stands for one literal quote character |
| SimpleShell.SkipSpaces | user/simple_shell/simple_shell.cpp:199-273 | leading spaces are skipped up to the first character that is not a space |
| SimpleShell.CountCommandDetails | user/simple_shell/simple_shell.cpp:257-326 | the result says whether the quotes match, the argument count is the number of arguments the tokenizer finds, and the space is their total length plus one terminator each |
| SimpleShell.ScanSpace | user/simple_shell/simple_shell.cpp:275-315 | the space counted from any position is exactly the space the remaining arguments and their terminators need |
| SimpleShell.ArgTable | user/simple_shell/simple_shell.cpp:194-243 | the argv table holds one buffer offset per argument, each the start of that argument, and then a null entry |
| SimpleShell.JoinedReadsBack | user/simple_shell/simple_shell.cpp:204-252 | each table entry of the filled buffer points at its argument followed by a 0, so every argv string reads back as its argument |
| SimpleShell.FilledEnd | user/simple_shell/simple_shell.cpp:204-252 | writing the last argument's terminator completes both the buffer and the table |
| SimpleShell.SkipSpaceRun | user/simple_shell/simple_shell.cpp:226-229 | the inner loop stops on the last space of a run, from which the command scans exactly as from the first |
| SimpleShell.PutChar | user/simple_shell/simple_shell.cpp:245-250 | storing a character of the current argument extends that argument by the character, with the buffer and table still describing the arguments so far |
| SimpleShell.BeginArgument | user/simple_shell/simple_shell.cpp:237-243 | a space outside quotes terminates the current argument with a 0 and records the next argument's start in the next table slot, touching no other slot |
| SimpleShell.CopyArguments | user/simple_shell/simple_shell.cpp:204-252 | the main loop fills the argv buffer with every argument followed by its 0 and the table with their starts (terminators written where an argument ends) |
| SimpleShell.ParseCommand | user/simple_shell/simple_shell.cpp:155-255 | the result matches count_command_details, the table is ArgTable of the arguments and the buffer holds every argument followed by a 0 |
| SimpleShell.StoresAsWritten | user/simple_shell/simple_shell.cpp:206 | as written, every turn of the main loop first stores a 0 one past the write position |
| SimpleShell.ParseStoresAsWritten | user/simple_shell/simple_shell.cpp:204-252 | as written, the parse of a command with an argument starts by storing to offset 1, one past the write position |
| SimpleShell.ClosingQuoteOverrunsBuffer | user/simple_shell/simple_shell.cpp:206 | as written, for 'a' (quoted) and for "a " the store one past the write position lands one byte past the end of the exactly sized buffer |
| SimpleShell.BlankCommandLeavesArgumentUnterminated | user/simple_shell/simple_shell.cpp:199-236 | as written, a command of one space stores nothing, so its single empty argument has no terminator, while the corrected parse stores it |

## Left out

- KlibList.IsValid: a list whose next pointers loop back onto the head, with every item passing the checks, makes klib_list_is_valid (list.h:279-315) walk forever; its requires leaves out that one ring, and every other loop is shown to be refused.
- KlibList.GetLength: a list whose next pointers loop makes klib_list_get_length (list.h:240-255) walk forever; its requires keeps to walks that reach null.
- PipeFs.PipeBranch.Read: the blocking read, which yields to the scheduler until data arrives (block_on_read and task_yield), is not modelled. A read takes what the pipe holds when it is called. The scheduler and concurrency are not part of this model.
- PipeFs: the spinlocks and mutexes that guard the pipe, and the new-data message sent to a waiting reader, are not modelled (concurrency and message delivery).
- KlString.Substr: requires that start + len does not wrap around 2^64 unless len is npos or start is past the end. The source computes the sum in uint64_t, and its result for a wrapping sum is not modelled.
- KlString: kl_strlen and kl_strcmp are not part of this model. They are read as a length bounded by the buffer and as a comparison that is 0 exactly when the texts agree.
- Rtc.GetCurrentTime: the driver retries without bound until a read attempt is consistent. The model is given a finite sequence of attempts and gives None when none of them is consistent. The CMOS port reads and the update-in-progress flag are hardware access, given as the two snapshots and the flag of each attempt.
- SystemTreeSimpleBranch.SimpleBranch.Add: child branches are held by value in a map, so the sharing of a child between two shared_ptr owners (aliasing) is not captured. A change made through one owner is not seen through another.
- VirtualMemory.VirtualSpace.FreeProcData: the loop that unmaps each page of a range before the range is released, and the locks, are not modelled. Page tables are not part of this address-space model. Whether the merging always leaves one free range is not proved: the contract states the assertion outcome instead.
- FatFile.FatFile.SetFileSizeNoWrite: the STORAGE_ERROR returned when the filesystem object has already been destroyed (the expired weak pointer) is not modelled. The model's file always has its filesystem.
- FatFile.FatFile.constructor: covers only well-formed chains. It requires a directory's first cluster to start a proper, acyclic chain of the table, and a plain file's chain to have the length its recorded size implies. On a cyclic chain the walk at fat_file.cpp:73-77 never ends, and that hang is not modelled. It also requires a directory's size (clusters times cluster bytes) to fit uint32_t, where the source truncates it.
- FatFile.FatFile.constructor: requires that every cluster number of the volume is a normal one (numberOfClusters + 1 <= the largest normal number). A FAT12 volume of more than 4078 clusters, or a FAT16 one of more than 65518, has cluster numbers that read as reserved values. The source does not check this, and those volumes are outside the model.
- FatFs.FatFilesystem.ChangeFileChainLength: covers only well-formed chains. It requires the chain from start to be a proper, acyclic chain of the table whose length is the recorded oldLength. The source at fat_fs.cpp:702-787 runs on any table: what it does to a cyclic, short or overlong chain is not modelled.
- FatFs.FatFilesystem.ChangeFileChainLength: requires that every cluster number fits an entry of the table (numberOfClusters + 2 <= 2^12, 2^16 or 2^28). Only a FAT32 volume of more than 0x0FFFFFFE clusters, which the FAT format does not allow, breaks this.
- FatFs.FatFilesystem.constructor: the DEV_STATUS::FAILED outcomes are not modelled. These are a missing or failed storage device or one with no blocks (fat_fs.cpp:30-35), a failed read of the boot sector (fat_fs.cpp:44-48) and a failed read of the FAT (fat_fs.cpp:79-83 for FAT12 and FAT16, :103-107 for FAT32). The device is not part of this model: the constructor is given the boot sector and the table as read.
- FatFs.FatFilesystem.constructor: requires that the image of the first FAT holds an entry for every cluster. With a shorter table the source would read and write past the buffer it read.
- FatFs: the disk writes of the table are modelled as a call whose answer is ignored, as the source ignores it. The file operations write_bytes, get_file_size, set_file_size and advance_sector_num of fat_file.cpp are not modelled (sector I/O through the disk device).
- FatFolder.Folder.WriteFde: a write one past the end grows the model's table by that one entry. In the source, set_file_size (fat_folder.cpp:885-889) rounds a directory up to whole clusters, so the directory gains a cluster's worth of entries, holding whatever the new cluster held. Those extra entries are not modelled. Nor are the errors of get_file_size and write_bytes or the UNKNOWN result of a short write (fat_folder.cpp:881-905), which come from sector I/O.
- FatFolder: get_child, rename_child, delete_child, create_child, generate_basis_name_entry and populate_fdes_from_name of fat_folder.cpp are not modelled. They are object plumbing around the modelled lookups, placement and name conversion.
- KlString.At: the reference returned is modelled as the position it points at. That the out-of-bounds character is one shared, writable variable is not captured.
- Kmalloc.Allocator.Kmalloc: for a small request it states that a fresh chunk of the right size class is returned, not which slab it comes from. The pages handed over by mem_allocate_pages are parameters.
- Kmalloc, SlabAllocator: the allocator's spinlock is not modelled (concurrency).
- KernelMessages: msg_unregister_process, broadcast groups, the queue locks and the wake-up of the receiving process are not modelled. The contents pointer and the originating process are opaque numbers.
- SimpleShell: a null command pointer cannot be given to the model, because a sequence is never null. The reuse of the argument buffer across calls is not modelled; the buffer is always allocated at the size computed.
- MemX64: the PAT lookup functions are not part of this model, so a page-table entry carries its PAT index rather than a cache type. MEM_PAGE_SIZE is taken as 2MB. The MAXPHYADDR mask and the page-table walk through physical memory are not modelled.
- VirtualMemory: round_to_power_two is not part of this model. It is read as rounding up to the next power of two.
- HidParser: the parse state is a value that each step returns, where the source passes a struct by reference; a collection's parent pointer is its path from the root. Also:
  - the uint16_t offset wrap is not modelled;
  - bytes past the buffer read as 0;
  - the INCOMPLETE_CODE reached by a long item halts the kernel, and the model gives a fault result at that item's offset;
  - an ASSERT is a fault result;
  - the root collection's type is 0;
  - the usage-0 placeholder is kept as written.
- UsbCore: do_device_discovery and read_device_descriptor (the sequence of device requests and the maximum-packet-size negotiation) are not modelled. Also not modelled:
  - the endpoints array, which the source never allocates;
  - the uint16_t raw_ptr_offset wrap;
  - the index-0 read of an interface list that is still empty;
  - heap memory whose contents are unknown, which the model reads as 0.
  The configuration left in place after a failure is not stated.
- VirtioQueue: not modelled are
  - the move constructor and the destructor;
  - a queue of size 0;
  - physical address 0 as the free-descriptor marker;
  - device notification and memory barriers.
  The device's volatile used ring and index are parameters. A walk of a descriptor chain that leaves the table or repeats a descriptor is reported as stuck, with the queue size as the bound. Buffers given back are returned as a sequence of releases rather than calls.
- XhciTrbRing.Queue: as written, a ring accepts TRBs only until it first wraps, since no cycle bit is ever cleared (QueueLaps). No corrected ring is modelled, because the intended full-ring test needs the controller's dequeue position, which the ring code never reads.
- XhciTrbRing: the event ring's ERDP register write is modelled as the index reported back. The ring destructor and copy_trb (a field copy) are not modelled.
- GenTerminal: handle_private_msg (message dispatch) is not modelled.
- Ps2Device: start(), interrupt_fast and the mouse device are not modelled (hardware probing).
- Idt: the handler lists of proc_interrupt_data_table and the loading of the table into the processor are not modelled. The handler addresses are parameters.
- Gdt: initial_gdt_len and the stack allocation for each TSS are parameters.
- Gdt.RecreateGdt: requires 48 + 16 * numProcs < 0x10000. For 4093 or more processors the uint16_t length from proc_gdt_calc_req_len (gdt-x64.cpp:113-126) wraps. Then either the ASSERT at gdt-x64.cpp:63 halts the kernel (lengths 0, 16 and 32), or the TSS descriptors are written past the end of the allocated GDT. Neither outcome is modelled.
- Gdt.RecreateGdt: requires the initial table to be at most the 48-byte fixed part. This is stronger than the source's ASSERT(length_of_gdt >= initial_gdt_len) at gdt-x64.cpp:63. A longer initial table would have its tail overwritten by the TSS descriptors, and that is not modelled. The boot table is the fixed 48 bytes.

## Findings

| source | as written | input that shows it | evidently intended | confidence | as-written member | corrected member |
|---|---|---|---|---|---|---|
| kernel/system_tree/fs/pipe/pipe_fs.cpp:216-220 | the read and write pointers wrap only when they pass the buffer size (`>`) | 1024 bytes written and read back, then a one-byte write: it stores to _buffer[1024] | wrap when a pointer reaches the buffer size | high, not executed | PipeFs.WriteOverrunsBufferAsWritten | PipeFs.NextSlot, PipeFs.PipeBranch.Write |
| kernel/system_tree/fs/pipe/pipe_fs.cpp:297-304 | the room for a write is SIZE + read pointer - write pointer, which is all 1024 slots for an empty pipe | once the pointer wrap at pipe_fs.cpp:216-220 is corrected, a 1024-byte write to an empty pipe brings the write pointer back onto the read pointer, so the pipe reads as empty (with the wrap as written, the pointer stops at offset 1024 instead) | keep one slot free so that a full pipe differs from an empty one | high, not executed | PipeFs.FullWriteLooksEmptyAsWritten | PipeFs.FreeSpace |
| kernel/system_tree/fs/mem/mem_fs.cpp:115-119 | the end-of-file cut tests start + length computed in 64 bits | start 8 and length 2^64 - 4 on a 16-byte file: the sum wraps to 4, and 100 bytes are copied from offset 8 | cut the length to what lies between start and the end of the file | high, not executed | MemFs.ReadLengthWrapReadsPastEnd | MemFs.ReadLength, MemFs.MemFsLeaf.ReadBytes |
| kernel/system_tree/fs/mem/mem_fs.cpp:158-165 | write_bytes computes the end of the write, start + length, in uint64_t for both the growth test and the ASSERT | 8 bytes at 2^64 - 4 into a 16-byte file: the end wraps to 4, the file stays at 16 bytes, the ASSERT passes and the copy writes past the buffer | stop a write whose end does not fit in 64 bits | high, not executed | MemFs.WriteWrapPassesAssertAsWritten | MemFs.MemFsLeaf.WriteBytes |
| kernel/klib/data_structures/string.cpp:199-218 | find and find_last never try the last possible position | "a".find("a") and "a".find_last("a") give npos | try every position up to length() - substr.length() | high, not executed | KlString.FindMissesLastPosition | KlString.FindCorrected, KlString.FindLastCorrected |
| kernel/klib/data_structures/string.cpp:173 | operator[] lets position buffer_length through (`>`) | a string without a buffer, position 0: the null pointer is dereferenced; an unterminated buffer hands out the position just past its end | refuse positions at or past buffer_length | medium, not executed | KlString.AtPastBufferAsWritten | KlString.AtCorrected, KlString.AtCorrectedAgrees |
| kernel/klib/data_structures/string.cpp:148 | operator+ copies other_length + 1 characters of the second buffer, counting on a NUL after its text | "a" plus the unterminated one-character buffer "x": the character past that buffer is copied as the terminator, and the sum has no NUL when it is not one; with no second buffer the null pointer is read | write the terminator rather than copy it | medium, not executed | KlString.ConcatUnterminatedAsWritten | KlString.Concat, KlString.ConcatAsWrittenTerminated |
| kernel/system_tree/fs/fat/fat_folder.cpp:585 | populate_short_name finds the dot with kl_string::find, which misses a dot in the last position | "ABC." is refused as a short name, so the lookup takes the long-name path | "ABC." has the short form "ABC" with an empty extension | medium, not executed | FatNames.TrailingDotRefusedAsWritten, FatNames.FirstDotAsWritten | FatNames.ShortName, FatNames.PopulateShortName |
| user/simple_shell/simple_shell.cpp:206 | the terminator after an argument is written one byte past the copied text | the command 'a' (quoted), or "a " with a trailing space: offset 2 of a two-byte buffer is cleared | write the terminator at the end of the argument text | high, not executed | SimpleShell.ClosingQuoteOverrunsBuffer | SimpleShell.ParseCommand |
| user/simple_shell/simple_shell.cpp:199-236 | a command of spaces alone never enters the copy loop | the command " ": argv[0]'s one-byte buffer is never terminated | argv[0] is the empty string | high, not executed | SimpleShell.BlankCommandLeavesArgumentUnterminated | SimpleShell.ParseCommand |
| kernel/include/types/list.h:286-295 | klib_list_is_valid checks the head's prev pointer only for pointing back at the head | a one-item list whose head's prev is a foreign item linking back to it passes | the head has no predecessor and the tail no successor | high, not executed | KlibList.ForeignPrevPassesCheck | KlibList.IsValidCorrected, KlibList.CorrectedCheckIsExact |
| kernel/mem/x64/mem-x64.cpp:719-721 | mem_is_valid_virt_addr tests only the top 16 bits | 0x0000_8000_0000_0000 is accepted | canonical addresses: bits 47 to 63 all equal | high, not executed | MemX64.NonCanonicalAccepted | MemX64.IsValidVirtAddr |
| kernel/mem/x64/mem-x64.cpp:501-516 | the assertion on the PAT index is inverted against its comment, so a table entry may carry a PAT index of 4 or more | a non-leaf entry with PAT index 4 decodes with PAT index 0 | non-leaf entries, which have no PAT bit, take only indices below 4 | medium, not executed | MemX64.TablePatIndexLost | MemX64.DecodeEncode |
| kernel/klib/data_structures/binary_tree.h:384-396 | debug_check_node compares a node only with its parent | 7 in the right subtree of 3, which is the left child of 5, passes | every node lies within the bounds set by all of its ancestors | high, not executed | BinaryTree.AsWrittenCheckPassesDisorder | BinaryTree.DebugCheckNodeCorrected, BinaryTree.CorrectedCheckIsExact |
| kernel/klib/data_structures/red_black_tree.h:136-185 | inserting a key already present leaves new_node null, and the fix-up passes it to find_uncle, whose null check (red_black_tree.h:380) fails, so the count increment at red_black_tree.h:266 is never reached and the count does not change | inserting key 1 into the tree holding 1 | the value is replaced or the insert is refused, and the count is unchanged | high, not executed | RedBlackTree.InsertOfPresentKeyFails | RedBlackTree.RbTree.Insert |
| kernel/klib/data_structures/red_black_tree.h:541-590 | removing a node with two children decrements number_of_leaves twice | removing key 2 from the tree of 1, 2 and 3, with 2 at the root, leaves a count of 1 for two keys | one decrement per removed key | high, not executed | RedBlackTree.TwoChildRemovalMiscounts, RedBlackTree.LeavesAfterRemoveAsWritten | RedBlackTree.RbTree.Remove |
| kernel/klib/data_structures/red_black_tree.h:846-898 | debug_check_node compares a node only with its parent | the disordered tree of the binary-tree row passes | bounds from every ancestor | high, not executed | RedBlackTree.AsWrittenCheckPassesDisorder | RedBlackTree.DebugCheckNodeCorrected, RedBlackTree.CorrectedCheckIsExact |
| kernel/klib/data_structures/red_black_tree.h:412 | find_sibling asserts that the parent's right child is null | any right child fails the assertion, since its parent's right child is the node itself | the node is the parent's right child | medium, not executed | RedBlackTree.FindSiblingRejectsRightChild | RedBlackTree.FindSibling |
| kernel/klib/data_structures/red_black_tree.h:91-98 | clear_tree never resets number_of_leaves | clearing a tree of three keys leaves a count of 3 | the count is 0 | high, not executed | RedBlackTree.ClearedTreeKeepsCount | RedBlackTree.RbTree.ClearTree |
| kernel/mem/virtual.cpp:203-222 | allocate_specific_range never checks that the range it splits is free | two pages at 2 * PAGE inside a four-page allocation at 0 are handed out again | refuse a request inside an allocated range | high, not executed | VirtualMemory.SpecificAllocationInsideAllocation | VirtualMemory.VirtualSpace.AllocateSpecificRange |
| kernel/klib/memory/memory.cpp:576-591 | the free-chunk check is first_free_idx <= NUM_CHUNKS_PER_SLAB | a full slab: the scan stops one past the last chunk and hands out the start of the next page | a strict `<` | high, not executed | SlabAllocator.FullSlabScanAsWritten | SlabAllocator.Slab.AllocateChunk |
| kernel/klib/memory/memory.cpp:135-172 | the page count for a large request is truncated to 32 bits | a request of 2^53 bytes asks for 0 pages | the page count in 64 bits | high, not executed | Kmalloc.HugeRequestGetsNoPages | Kmalloc.LargePagesFewest, Kmalloc.Allocator.Kmalloc |
| kernel/system_tree/fs/fat/fat_fs.cpp:836 | select_free_cluster stops before the last cluster | a volume whose only free cluster is its last is reported full | search every cluster from 2 to number_of_clusters + 1 | high, not executed | FatFs.LastClusterNeverSelected | FatFs.FatFilesystem.SelectFreeCluster |
| kernel/system_tree/fs/fat/fat_fs.cpp:755-764 | a cluster added to a chain is left free until the loop reaches it | a new two-cluster chain on an empty FAT16 volume: cluster 2 is found twice and the file gets one cluster | mark each added cluster before the next search | high, not executed | FatFs.NewChainOfTwoGetsOneCluster | FatFs.FatFilesystem.ChangeFileChainLength |
| kernel/system_tree/fs/fat/fat_file.cpp:578-600 | a file cut to size 0 keeps its freed first cluster, and change_file_chain_length grows a zero-length chain from any nonzero start | a one-cluster file cut to 0, whose cluster 2 then goes to another file, grown back to one cluster: both files own cluster 2 | an empty file has first cluster 0, and an empty chain gets a fresh cluster | high, not executed | FatFile.TruncatedStartIsFree, FatFs.StaleStartReusedAsWritten | FatFile.FatFile.SetFileSizeNoWrite, FatFs.FatFilesystem.ChangeFileChainLength |
| kernel/system_tree/fs/fat/fat_folder.cpp:377 | the first long entry is indexed from the name length without a bound | a name of 261 characters starts at index 20 of a 20-entry buffer; the empty name at index 255 | refuse names that do not fit the buffer | high, not executed | FatNames.LongNameOverrunsBuffer | FatNames.LongEntries, FatNames.PopulateLongName |
| kernel/system_tree/fs/fat/fat_folder.cpp:1183-1194 | the numeric tail's terminator is written after the digits | an 8-character base with suffix 1: the zero lands on the first byte of the extension | the tail replaces the end of the base and leaves the extension alone | high, not executed | FatNames.NumericTailClobbersExtension | FatNames.AddNumericTail |
| kernel/system_tree/fs/fat/fat_folder.cpp:848-864 | soft_compare skips some character bytes of a long-name entry | the entries of "AAAA" and "AAAB" compare equal | compare every name character | high, not executed | FatFolder.SoftCompareMissesCharacters | FatFolder.SoftCompareBytes |
| kernel/system_tree/fs/fat/fat_folder.cpp:470-502 | a mismatch drops a partial long-name match without trying the entry as a new start | a stray copy of a name's first entry before the name hides the name | retry the mismatching entry as the start of the name | high, not executed | FatFolder.StrayFirstEntryHidesName | FatFolder.Folder.GetDirEntry, FatFolder.LongScanComplete |
| kernel/system_tree/fs/fat/fat_folder.cpp:1287-1324 | the INVALID_OP branch repeats the test that already failed | a long-name entry given as the short entry: NO_ERROR and nothing freed | INVALID_OP for a long-name entry | high, not executed | FatFolder.UnlinkLongEntryReportsSuccess | FatFolder.Folder.UnlinkFdes |
| kernel/system_tree/fs/fat/fat_folder.cpp:1071-1137 | when no room is found in a directory of 65535 entries the entries are written from index 0 | a full directory: entry 0, in use, is overwritten | report that the directory is full | high, not executed | FatFolder.FullDirectoryOverwritten | FatFolder.Folder.AddDirectoryEntries |
| kernel/devices/usb/controllers/usb_xhci_trb_ring.cpp:463-480 | convert_phys_to_position allows the address one past the segment and keeps the offset in 32 bits | the address just past the last TRB converts to the segment size; base + 2^36 converts to 0 | refuse addresses outside the segment | high, not executed | XhciTrbRing.PositionAsWrittenMisplaces | XhciTrbRing.PositionOfAddress, XhciTrbRing.TrbRing.RetrieveCommand |
| kernel/devices/usb/hid/hid_input_descriptor_parser.cpp:92-95 | four-byte item data is read as 0 | a Logical Maximum of 0x10000 becomes 0 | the four data bytes, little-endian | high, not executed | HidParser.FourByteItemsReadAsZero | HidParser.ItemDataIsItemBytes |
| kernel/devices/usb/hid/hid_input_descriptor_parser.cpp:555 | a new field's physical maximum is set from the physical minimum | any descriptor with distinct physical bounds | the physical maximum in force | high, not executed | HidParser.PhysicalMaximumLost | HidParser.NewField |
| kernel/devices/usb/hid/hid_input_descriptor_parser.cpp:335-338 | Push places default globals on top of the stack instead of a copy of the current ones | Usage Page 1, Push, then Usage 0x30 records usage 0x30 | 0x10030, as before the Push | high, not executed | HidParser.PushForgetsUsagePage | HidParser.GlobalItem, HidParser.PushPopRestores |
| kernel/devices/usb/hid/hid_input_descriptor_parser.cpp:219-231 | End Collection clears the parent link of the collection it returns to instead of the one it closes | two nested collections closed in turn leave no current collection | return to the enclosing collection | high, not executed | HidParser.NestedCloseLosesCursor | HidParser.CloseReturnsToOpener, HidParser.MainItemEffects |
| kernel/devices/usb/usb_gen_device_core.cpp:312-313 | a descriptor of length 0 advances the cursor by 0 | a zero-length descriptor of an unknown type: the walk never ends | refuse a zero-length descriptor | high, not executed | UsbCore.ZeroLengthHeaderStalls | UsbCore.WalkDescriptors |
| kernel/devices/usb/usb_gen_device_core.cpp:262-269 | an interface descriptor is copied without checking the count the configuration declared | a second interface in a configuration declaring one is copied to slot 1 of a one-slot array | refuse interfaces past the declared count | high, not executed | UsbCore.ExtraInterfaceOverruns | UsbCore.DescriptorStep, UsbCore.WalkFindsAllEndpoints |
| kernel/devices/virtio/virtio_queue.cpp:258-294 | the used ring is indexed by the driver's cursor without reducing it modulo the queue size | after queue-size buffers have been used, the element read lies past the end of the used ring | index used_ring by last_used_ring_idx % queue_size | high, not executed | VirtioQueue.UsedCursorOverruns | VirtioQueue.VirtQueue.ProcessUsedRing |

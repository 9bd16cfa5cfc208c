# csb containers and algorithms, modelled in Dafny

This project models the core of the `csb` C++ library. It covers:

- the binary search tree `binary_tree<T, Policy>` with its node utilities and its in-order iterator;
- the red-black balancing policy that turns `binary_tree` into `red_black_tree`;
- the singly linked list `singly_linked_list<T>` and its free functions;
- the fixed-size array `static_array<T, n>`;
- the generic `reverse` algorithm.

Element types are `int`, since the source needs only a total order and equality.

The modules follow the headers:

- **Reverse** (`reverse.dfy`): `reverse(beg, end)` swaps inwards through a range of an array, and `reverse(char*)` applies it to a NUL-terminated string. The result is specified by the function `Reversed`.
- **StaticArray** (`static_array.dfy`): a class over one Dafny `array`. It has the constructors, `fill`, the `init` loop, `assign`, `operator[]`, the checked `at`, `front`, `back`, `size`, `is_empty`, `==` and `!=`.
- **SinglyLinkedList** (`singly_linked_list.dfy`):
  - The nodes are a sequence of records within the list object. A node's index is its address; `Null` is `nullptr`.
  - A ghost sequence `order` lists the nodes from `_head` to the end. `Seg` ties it to the `next` links.
  - `_size` is a `std::size_t` that wraps modulo 2^64 (`SizeT`, `Inc`, `Dec`).
  - Every member function that changes the list is a method. Its contract gives the new element sequence and the new counter.
- **TreeShape** (`tree_shape.dfy`): the ghost shape of a tree of nodes (`Tree`), the in-order sequence `Order`, subtrees, ranks, and the sequence operations that specify insertion and removal.
- **TreeUtils** (`tree_utils.dfy`):
  - The nodes of one tree live in a mutable `Arena` of `Node(key, left, right, parent, colour)` records. An arena index is a pointer; `Null` is `nullptr`.
  - The shape is tied to the links by `Linked`.
  - The module holds `binary_tree_node::add`, `find`, `inorder_traverse`, the four rotations, `find_replacement`, `detach`, `leftmost`, `rightmost` and `is_left_child`.
- **RedBlackTree** (`red_black_tree.dfy`): `find_aunt`, the four shape tests, `is_black`, `recolour`, `rotate`, `balance_impl` and `balance`. The ghost function `Fixup` states what balancing computes on the shape and the colours, without links; each method's contract ties its result to it. The module also holds the red-black conditions and the height properties that the test suite checks.
- **RedBlackScenarios** (`red_black_scenarios.dfy`): the insertion scenarios of red_black_tree/red_black_tree.test.cpp, one `add` at a time, read back in level order as the tests read them.
- **TreeIterator** (`tree_iterator.dfy`): `binary_tree_iterator`'s `++`, `--`, `*` and `==`. The position of an iterator is its index in the in-order sequence.
- **BinaryTree** (`binary_tree.dfy`):
  - the container: `add`, `erase`, `find`, `contains`, `inorder_traverse`, the breadth-first traversals, `size`, `is_empty`, `begin`, `end`, `==`, and the constructors that add keys one by one;
  - `null_balancing_policy::erase_node`;
  - walks over the tree with the iterator;
  - the tree of keys (`KeyTree`, `KInsert`, `KBuild`), which shows that a copy made by breadth-first `add`s puts every key in the same place.

A visitor function (`fn`, `visiter`) is modelled by returning the sequence of values it would have been called with, in call order.

## Model

| member | source | states |
|---|---|---|
| Reverse.ReverseRange | reverse/reverse.hpp:12-21 | the slots `[beg, end)` end up holding their old contents in reverse order; the slots outside the range are unchanged |
| Reverse.StrLen | reverse/reverse.hpp:23 | `strlen`: the index of the first NUL, no NUL before it |
| Reverse.ReverseCString | reverse/reverse.hpp:23 | the characters before the first NUL are reversed; the NUL and everything after it are unchanged |
| Reverse.ReversedTwice | reverse/reverse.hpp:12-21 | reversing twice gives back the original sequence |
| Reverse.ReversedPermutes | reverse/reverse.hpp:12-21 | reversing is a permutation: the multiset of elements is kept |
| Reverse.ReversedAt | reverse/reverse.hpp:16-20 | element `k` of the result is element `len - 1 - k` of the input |
| Reverse.MiddleStays | reverse/reverse.hpp:16 | in an odd-length range the loop stops at `beg == --end`, and the middle element is already in place |
| Reverse.MirroredIsReversed | reverse/reverse.hpp:16-20 | a sequence that mirrors another index by index is its reversal, which ties the swaps to `Reversed` |
| StaticArray.StaticArray.constructor | static_array/static_array.hpp:27-28 | the default constructor gives an array of exactly `n > 0` slots |
| StaticArray.StaticArray.Filled | static_array/static_array.hpp:44-50 | every one of the `n` slots holds `all` |
| StaticArray.StaticArray.FromRange | static_array/static_array.hpp:52-64 | the first `min(n, \|rng\|)` slots hold the range's elements in order, and the slots past a shorter range hold the value-initialised `T{}` that `_store{}` put there |
| StaticArray.StaticArray.Fill | static_array/static_array.hpp:129-133 | every slot holds `with` afterwards |
| StaticArray.StaticArray.Init | static_array/static_array.hpp:147-157 | slot `i` holds `rng[i]` when the range reaches it, and otherwise keeps its old value |
| StaticArray.StaticArray.Assign | static_array/static_array.hpp:127 | the same effect as `init` |
| StaticArray.StaticArray.Get | static_array/static_array.hpp:66-69 | the element at index `i` of the contents, for `i < n` |
| StaticArray.StaticArray.Set | static_array/static_array.hpp:77-80 | writing through `operator[]` changes slot `i` and no other |
| StaticArray.StaticArray.At | static_array/static_array.hpp:91-96 | the result is a value exactly when `i < n` (otherwise `out_of_range`), and then it is the element at `i` |
| StaticArray.StaticArray.Front | static_array/static_array.hpp:110 | the first element |
| StaticArray.StaticArray.Back | static_array/static_array.hpp:116 | the last element |
| StaticArray.StaticArray.Size | static_array/static_array.hpp:125 | the number of elements held |
| StaticArray.StaticArray.IsEmpty | static_array/static_array.hpp:122 | true exactly when there are no elements, which never happens since `n > 0` |
| StaticArray.Equal | static_array/static_array.hpp:135-139 | true exactly when the two arrays hold the same elements in the same order |
| StaticArray.NotEqual | static_array/static_array.hpp:140-144 | true exactly when the contents differ |
| SinglyLinkedList.Inc | linked_list/singly_linked_list.hpp:234 | `++_size` on a `size_t` is unsigned arithmetic: `(n + 1) mod 2^64`, so one more below `SIZE_MAX` and 0 at it |
| SinglyLinkedList.Dec | linked_list/singly_linked_list.hpp:303 | `--_size` on a `size_t` is unsigned arithmetic: `(n - 1) mod 2^64`, so one less above 0 and `SIZE_MAX` at 0 |
| SinglyLinkedList.IncDecInverse | linked_list/singly_linked_list.hpp:234 | `++` and `--` on the counter undo each other, including across the wrap-around |
| SinglyLinkedList.AddSize | linked_list/singly_linked_list.hpp:272 | `_size += size` is the plain sum when it does not overflow |
| SinglyLinkedList.SinglyLinkedList.constructor | linked_list/singly_linked_list.hpp:182 | the default list is empty with counter 0 |
| SinglyLinkedList.CopyOf | linked_list/singly_linked_list.hpp:184-193 | the copy holds the same values in the same order and the same counter |
| SinglyLinkedList.SinglyLinkedList.Assign | linked_list/singly_linked_list.hpp:196-215 | afterwards the list holds exactly the other list's values and counter (self-assignment included) |
| SinglyLinkedList.SinglyLinkedList.OverwriteChain | linked_list/singly_linked_list.hpp:199-211 | the loop over the source reuses the existing nodes front to back and adds nodes for the rest; the values written are the source's |
| SinglyLinkedList.SinglyLinkedList.IsEmpty | linked_list/singly_linked_list.hpp:219 | true exactly when the counter is 0 |
| SinglyLinkedList.SinglyLinkedList.Size | linked_list/singly_linked_list.hpp:222 | the counter, which is the number of nodes while the list is counted |
| SinglyLinkedList.SinglyLinkedList.Begin | linked_list/singly_linked_list.hpp:224 | the iterator at position 0 (`end()` for an empty list) |
| SinglyLinkedList.SinglyLinkedList.MakeNode | linked_list/singly_linked_list.hpp:426-431 | a new node with the given value and `next`, at an address no existing node has |
| SinglyLinkedList.SinglyLinkedList.PushFront | linked_list/singly_linked_list.hpp:232-237 | the value is prepended, the counter is incremented, and the result is the new first node |
| SinglyLinkedList.SinglyLinkedList.PushBack | linked_list/singly_linked_list.hpp:239-252 | the value is appended, the counter is incremented, and the result is the new last node |
| SinglyLinkedList.SinglyLinkedList.Append | linked_list/singly_linked_list.hpp:254-274 | the range is appended in order, the counter grows by its length, and the result is the first appended node (`end()` for an empty range) |
| SinglyLinkedList.SinglyLinkedList.Insert | linked_list/singly_linked_list.hpp:276-286 | the value is inserted before the position of `pos`, and the result is the new node at that position |
| SinglyLinkedList.SinglyLinkedList.InsertAfter | linked_list/singly_linked_list.hpp:288-296 | the value is inserted just after `pos`, and the result is the new node |
| SinglyLinkedList.SinglyLinkedList.PopFront | linked_list/singly_linked_list.hpp:298-305 | the first element is removed and the counter decremented; an empty list is unchanged |
| SinglyLinkedList.SinglyLinkedList.PopBack | linked_list/singly_linked_list.hpp:307-326 | with a counter of at most 1 the list is cleared to counter 0; otherwise the last element is dropped and the counter decremented |
| SinglyLinkedList.SinglyLinkedList.Erase | linked_list/singly_linked_list.hpp:328-343 | the element at `pos` is removed, the counter decremented, and the result is the iterator now at that position |
| SinglyLinkedList.SinglyLinkedList.ReverseLinks | linked_list/singly_linked_list.hpp:345-360 | relinking the nodes leaves the values in reverse order and the counter unchanged |
| SinglyLinkedList.SinglyLinkedList.Interleave | linked_list/singly_linked_list.hpp:364-398 | the `while (true)` loop splices two node chains into the sorted merge of their values, taking from the left on ties |
| SinglyLinkedList.SinglyLinkedList.Merge | linked_list/singly_linked_list.hpp:362-399 | the list holds the sorted merge of both lists' values, but the counter is not updated, so a counted list stops being counted once a non-empty list is merged in |
| SinglyLinkedList.SinglyLinkedList.MergeCounted | linked_list/singly_linked_list.hpp:362-399 | the same merge with the counter increased by the other list's counter, so a counted list stays counted |
| SinglyLinkedList.MergeSortedIsSorted | linked_list/singly_linked_list.hpp:362-399 | merging two sorted lists gives a sorted list of the combined length, and its first element is the smaller of the two fronts |
| SinglyLinkedList.MergeSortedPermutation | linked_list/singly_linked_list.hpp:362-399 | the merge loses and invents no element: its multiset is the sum of the inputs' |
| SinglyLinkedList.MergeBounded | linked_list/singly_linked_list.hpp:382-393 | a lower bound of both inputs bounds the merge |
| SinglyLinkedList.MergeKeepsLeftFirst | linked_list/singly_linked_list.hpp:382-393 | on ties the left list's node is taken first (`b < a` is strict), so when no right element is below any left one the merge is the plain concatenation |
| SinglyLinkedList.Equal | linked_list/singly_linked_list.hpp:401-417 | the lock-step walk answers true exactly when the two lists hold the same values in the same order, lengths included |
| SinglyLinkedList.NotEqual | linked_list/singly_linked_list.hpp:419-423 | true exactly when the contents differ |
| SinglyLinkedList.Before | linked_list/singly_linked_list.hpp:442-451 | the node just before `pos`, or `pos` itself when it is `begin()`; the last node when `pos` is `end()` |
| SinglyLinkedList.Last | linked_list/singly_linked_list.hpp:453-457 | the last node, or `end()` for an empty list |
| SinglyLinkedList.ApplyInReverseIterative | linked_list/singly_linked_list.hpp:472-492 | the nested loops call `fn` on the values of `[start, end)` from last to first |
| SinglyLinkedList.ApplyInReverseRecursive | linked_list/singly_linked_list.hpp:459-470 | the values of `[start, end)` from last to first |
| SinglyLinkedList.ApplyInReverse | linked_list/singly_linked_list.hpp:494-499 | the values of `[start, end)` from last to first |
| TreeShape.SortedInsertFacts | binary_tree/tree_utils.hpp:20-52 | inserting a key into an increasing sequence keeps it increasing and adds that key and nothing else; a key already present leaves it unchanged |
| TreeShape.RemoveAt | binary_tree/binary_tree.hpp:313-327 | removing a present key from an increasing sequence drops exactly the element at that key's position |
| TreeShape.RotLFacts | binary_tree/tree_utils.hpp:153-166 | a left rotation keeps the node set and the in-order sequence |
| TreeShape.RotRFacts | binary_tree/tree_utils.hpp:168-181 | a right rotation keeps the node set and the in-order sequence |
| TreeShape.RotLRFacts | binary_tree/tree_utils.hpp:183-188 | the double rotation keeps the node set and the in-order sequence |
| TreeShape.RotRLFacts | binary_tree/tree_utils.hpp:190-195 | the double rotation keeps the node set and the in-order sequence |
| TreeUtils.Arena.NewNode | binary_tree/tree_utils.hpp:144-149 | a fresh node with no children and no parent, coloured Red as `red_black_node_meta_data` starts |
| TreeUtils.Arena.Add | binary_tree/tree_utils.hpp:20-52 | `node::add` hangs the new node as a leaf where its key belongs, keeping the in-order sequence; it returns false and changes nothing when the key is already present |
| TreeUtils.KeyDirection | binary_tree/tree_utils.hpp:22-50 | in a search tree a key below the node's key can only be in the left subtree and one above it only in the right |
| TreeUtils.Arena.Find | binary_tree/tree_utils.hpp:54-83 | the result is `nullptr` exactly when the key is absent, and otherwise a node of the tree holding the key |
| TreeUtils.Arena.Inorder | binary_tree/tree_utils.hpp:90-104 | the keys are visited in in-order |
| TreeUtils.Arena.LeftRotate | binary_tree/tree_utils.hpp:153-166 | the links afterwards describe the left-rotated shape, and the result is the old right child; keys, colours and nodes outside the subtree are untouched |
| TreeUtils.Arena.RightRotate | binary_tree/tree_utils.hpp:168-181 | the links afterwards describe the right-rotated shape, and the result is the old left child; keys, colours and nodes outside the subtree are untouched |
| TreeUtils.Arena.LeftRightRotate | binary_tree/tree_utils.hpp:183-188 | the links afterwards describe the left-right double rotation, and the result is the old left child's right child |
| TreeUtils.Arena.RightLeftRotate | binary_tree/tree_utils.hpp:190-195 | the links afterwards describe the right-left double rotation, and the result is the old right child's left child |
| TreeUtils.Arena.FindReplacement | binary_tree/tree_utils.hpp:198-220 | with two children the result is the in-order successor (the first node of the right subtree), which has no left child; with no children it is `nullptr`; with one child it is that child |
| TreeUtils.Arena.Detach | binary_tree/tree_utils.hpp:222-249 | for a node with at most one child, the links afterwards describe the tree with that node replaced by the given child subtree; the root changes only when the node was the root |
| TreeUtils.Arena.Leftmost | binary_tree/tree_utils.hpp:251-259 | the first node in in-order (`nullptr` for an empty tree); it has no left child and holds the least key |
| TreeUtils.Arena.Rightmost | binary_tree/tree_utils.hpp:261-269 | the last node in in-order (`nullptr` for an empty tree); it has no right child and holds the greatest key |
| TreeUtils.FirstIsLeast | binary_tree/tree_utils.hpp:251-259 | in a search tree the first node in in-order holds the least key |
| TreeUtils.LastIsGreatest | binary_tree/tree_utils.hpp:261-269 | in a search tree the last node in in-order holds the greatest key |
| TreeUtils.Arena.IsLeftChild | binary_tree/tree_utils.hpp:271-275 | true exactly when the node is not the root and is the top of its parent's left subtree |
| TreeUtils.ChildSlotOf | binary_tree/tree_utils.hpp:271-275 | a node's `parent` is null exactly at the root, and otherwise its parent's `left` (or `right`) points back at it exactly when it sits on that side in the shape |
| RedBlackTree.FindAunt | red_black_tree/red_black_tree.hpp:39-59 | the sibling of the node's parent, or `nullptr` when there is no grandparent |
| RedBlackTree.IsLeftLeft | red_black_tree/red_black_tree.hpp:61-69 | true exactly when the node is a left child of a left child |
| RedBlackTree.IsLeftRight | red_black_tree/red_black_tree.hpp:71-79 | true exactly when the node is a right child of a left child |
| RedBlackTree.IsRightRight | red_black_tree/red_black_tree.hpp:81-89 | true exactly when the node is a right child of a right child |
| RedBlackTree.IsRightLeft | red_black_tree/red_black_tree.hpp:91-99 | true exactly when the node is a left child of a right child |
| RedBlackTree.ShapeCases | red_black_tree/red_black_tree.hpp:145-168 | a node with a grandparent is on exactly one side of its parent, and the parent on exactly one side of the grandparent, so the final `else` of `rotate` is the right-left case |
| RedBlackTree.IsBlack | red_black_tree/red_black_tree.hpp:108-111 | true exactly for Black nodes and for `nullptr` |
| RedBlackTree.Recolour | red_black_tree/red_black_tree.hpp:113-125 | with a Red parent and a Red aunt: the shape and colours afterwards are those `Fixup` gives from the grandparent once `RecolourAt` has made the parent and aunt Black and the grandparent Red; the result is a red-black tree with the same in-order nodes and keys |
| RedBlackTree.RecolourAt | red_black_tree/red_black_tree.hpp:116-122 | the three writes of `recolour`: grandparent Red, aunt and parent Black, every other node unchanged; the grandparent, nearer the root, is then the only node that may sit under a Red parent |
| RedBlackTree.Rotate | red_black_tree/red_black_tree.hpp:127-171 | with a Red parent and a Black aunt: the new shape is the old one with the grandparent's subtree replaced by the rotation for the node's case; the new top of that subtree gets the grandparent's old colour and the grandparent gets the top's, all other colours unchanged; the result is a red-black tree with the same in-order nodes and keys, hung in the great-grandparent's slot or as the root |
| RedBlackTree.RotateShape | red_black_tree/red_black_tree.hpp:145-168 | the grandparent's subtree becomes `RotationFor`'s rotation (right for left-left, left-right, left for right-right, right-left otherwise), with the same node set and in-order sequence; with the two colours exchanged it has no Red-Red edge, a Black top and the old Black height |
| RedBlackTree.RotationCases | red_black_tree/red_black_tree.hpp:145-168 | each of the four positions of the grandchild selects its own rotation: right, left-right, left, right-left |
| RedBlackTree.Relink | red_black_tree/red_black_tree.hpp:133-143 | `*link = …` on the great-grandparent rewrites exactly its child link on the grandparent's side |
| RedBlackTree.SwapColour | red_black_tree/red_black_tree.hpp:148-149 | `std::swap` of two colours: each node gets the other's colour, nothing else changes |
| RedBlackTree.InsertRedLeaf | red_black_tree/red_black_tree.hpp:34-37 | hanging a new node, which starts Red, keeps the Black heights balanced and breaks the no-Red-Red rule only at the new node |
| RedBlackTree.BalanceImpl | red_black_tree/red_black_tree.hpp:173-202 | the shape and colours afterwards are `Fixup`'s: the first node is made Black; below a Black parent nothing changes at all; a Black aunt rotates, a Red aunt recolours and continues at the grandparent. The result is a red-black tree with the same in-order nodes and keys |
| RedBlackTree.Balance | red_black_tree/red_black_tree.hpp:204-211 | `balance_impl` then a Black root: the shape and colours are `Fixup`'s, and the result is a red-black tree with the same in-order nodes and keys |
| RedBlackTree.FixupColours | red_black_tree/red_black_tree.hpp:173-202 | balancing reads only colours: from arenas with the same colours it gives the same shape and again the same colours |
| RedBlackTree.FixupPayload | red_black_tree/red_black_tree.hpp:173-202 | from arenas with the same keys and colours, balancing gives the same shape and again the same keys and colours |
| RedBlackTree.ComputeBlackHeight | red_black_tree/red_black_tree.test.cpp:32-56 | the check returns a non-negative number exactly when every path has the same number of Black nodes, and that number is then the black height |
| RedBlackTree.TreeHeight | red_black_tree/red_black_tree.test.cpp:60-83 | the test's height (where a node with one child adds nothing) is at least 1 for a non-empty tree and never more than the true height |
| RedBlackTree.MinHeightCoversBlack | red_black_tree/red_black_tree.test.cpp:84-87 | in a black-balanced tree the black height is at most the test's minimum height |
| RedBlackTree.HeightBound | red_black_tree/red_black_tree.test.cpp:361-365 | a black-balanced tree without Red-Red edges is at most twice its black height tall, plus one for a Red top |
| RedBlackTree.RedBlackHeights | red_black_tree/red_black_tree.test.cpp:361-365 | in every red-black tree the test's maximum height is at most twice its minimum height |
| TreeIterator.Iterator.constructor | binary_tree/binary_tree.hpp:173-177 | an iterator at the given node, or `end()` when it is `nullptr` |
| TreeIterator.Iterator.Pos | binary_tree/binary_tree.hpp:179-180 | the position is the node's index in the in-order sequence, and the length of that sequence for `end()` |
| TreeIterator.Iterator.Key | binary_tree/binary_tree.hpp:169 | `*it` is the key at the iterator's in-order position |
| TreeIterator.Iterator.Equals | binary_tree/binary_tree.hpp:184-188 | two iterators over one tree are equal exactly when they are at the same position |
| TreeIterator.Iterator.Increment | binary_tree/binary_tree.hpp:92-124 | `++` moves to the next in-order position (the last node goes to `end()`), provided the node has a right child or a parent |
| TreeIterator.SuccessorBelow | binary_tree/binary_tree.hpp:95-100 | with a right subtree the next node in in-order is that subtree's leftmost node |
| TreeIterator.Iterator.ClimbFromRight | binary_tree/binary_tree.hpp:107-121 | from a node that is the last of its own subtree, climbing while coming up from the right reaches the next in-order position, or `end()` |
| TreeIterator.Iterator.IncrementChecked | binary_tree/binary_tree.hpp:92-124 | `++` with a null check on the parent moves to the next in-order position from every node |
| TreeIterator.RootLastWithoutRight | binary_tree/binary_tree.hpp:101 | a root without a right child is the last node in in-order, and it has neither a right child nor a parent, so `++` from it reads `np->parent->left` through a null pointer |
| TreeIterator.Iterator.Decrement | binary_tree/binary_tree.hpp:133-160 | `--` moves to the previous in-order position; `--end()` goes to the last node, and `--begin()` goes to `end()` when `begin()` is not the root |
| TreeIterator.PredecessorBelow | binary_tree/binary_tree.hpp:140-143 | with a left subtree the previous node in in-order is that subtree's rightmost node |
| TreeIterator.Iterator.ClimbFromLeft | binary_tree/binary_tree.hpp:148-158 | from a node that is the first of its own subtree, climbing while coming up from the left reaches the previous in-order position, or `end()` from the first node |
| BinaryTree.BinaryTree.constructor | binary_tree/binary_tree.hpp:210 | the default tree is empty, with no nodes and counter 0 |
| BinaryTree.BinaryTree.Insert | binary_tree/binary_tree.hpp:296-309 | creating the node, `node::add` and the policy's `balance` insert the key into the sorted key sequence, a node being added exactly when the key was absent; for the plain policy the tree of keys grows by `KInsert`, for the red-black policy shape and colours are `RbInsert`'s |
| BinaryTree.BinaryTree.Add | binary_tree/binary_tree.hpp:296-311 | the key is inserted into the sorted key sequence, the shape and colours are those of `KInsert` (plain) or `RbInsert` (red-black), and the counter is incremented even when the key was already present |
| BinaryTree.BinaryTree.AddCounted | binary_tree/binary_tree.hpp:296-311 | the same insertion and the same shapes, with the counter incremented only when a node was added, so a counter equal to the node count stays equal |
| BinaryTree.RbInsert | binary_tree/binary_tree.hpp:296-309 | `add` on a red-black tree as a function of shape and arena: the new node is hung as a leaf and `Fixup` balances from it; the keys are those of the arena with the new node |
| BinaryTree.HungRed | red_black_tree/red_black_tree.hpp:34-37 | hanging the new Red node into a red-black tree leaves either the balancing precondition at the new node or, for a present key, the unchanged tree; the node is in the tree exactly when the key was absent |
| BinaryTree.RbInsertPayload | binary_tree/binary_tree.hpp:296-309 | red-black `add` depends only on the keys and colours of the arena, not on its links |
| BinaryTree.NullAdded | binary_tree/tree_utils.hpp:20-52 | plain `add` grows the tree of keys by `KInsert`: a new leaf left of a larger key, right of a smaller one |
| BinaryTree.InsertLeafKeyTree | binary_tree/tree_utils.hpp:20-52 | hanging a leaf into the shape, read as a tree of keys, is `KInsert` of the leaf's key |
| BinaryTree.BinaryTree.Erase | binary_tree/binary_tree.hpp:313-327 | the key is removed from the key sequence, and the counter drops by one exactly when the key was present; erasing the only key empties the tree |
| BinaryTree.EraseNode | binary_tree/binary_tree.hpp:30-72 | the in-order key sequence loses exactly the key at the target's position, for leaves, for one-child nodes and, through the successor swap, for two-child nodes |
| BinaryTree.Splice | binary_tree/binary_tree.hpp:44-64 | a node with one child is replaced by that child, in the parent's slot or as the root |
| BinaryTree.BinaryTree.Contains | binary_tree/binary_tree.hpp:329 | true exactly when the key is in the tree |
| BinaryTree.BinaryTree.Find | binary_tree/binary_tree.hpp:331-341 | the iterator is `end()` exactly when the key is absent, and otherwise it is at the key |
| BinaryTree.BinaryTree.InorderTraverse | binary_tree/binary_tree.hpp:343-350 | the visitor sees the tree's keys in strictly increasing order |
| BinaryTree.BinaryTree.IsEmpty | binary_tree/binary_tree.hpp:387 | true exactly when the counter is 0, and then there are no keys |
| BinaryTree.BinaryTree.Size | binary_tree/binary_tree.hpp:389 | the counter, which is never below the number of keys |
| BinaryTree.BinaryTree.Begin | binary_tree/binary_tree.hpp:391-394 | the iterator at position 0 |
| BinaryTree.BinaryTree.End | binary_tree/binary_tree.hpp:396-399 | the iterator past the last key |
| BinaryTree.BinaryTree.Walk | red_black_tree/red_black_tree.test.cpp:351-358 | a `for (it = begin(); it != end(); ++it)` loop visits the keys in order, when the root has a right child |
| BinaryTree.BinaryTree.WalkChecked | red_black_tree/red_black_tree.test.cpp:351-358 | the same loop with the checked `++` visits the keys in order for every tree |
| BinaryTree.BinaryTree.WalkBack | binary_tree/binary_tree.hpp:133-160 | walking with `--` from `end()` back to `begin()` visits the keys in reverse order |
| BinaryTree.BinaryTree.BreadthFirstNodes | binary_tree/binary_tree.hpp:359-385 | the queue loop visits the nodes in level order, each node exactly once |
| BinaryTree.LevelOrderStartsAtRoot | binary_tree/binary_tree.hpp:367-375 | the first node visited is the root |
| BinaryTree.LevelOrderPermutes | binary_tree/binary_tree.hpp:359-385 | level order is a permutation of in-order |
| BinaryTree.LevelOrderByDepth | binary_tree/binary_tree.hpp:370-384 | no node is visited before a node nearer the root |
| BinaryTree.BinaryTree.BreadthFirstTraverse | binary_tree/binary_tree.hpp:352-357 | the visitor sees the keys of the nodes in level order: the tree's keys, each once |
| BinaryTree.StdEqual | binary_tree/binary_tree.hpp:288 | `std::equal(l.begin(), l.end(), r.begin())` holds exactly when the first sequence is a prefix of the second; it is applied only where it does not read past the second range |
| BinaryTree.Equal | binary_tree/binary_tree.hpp:285-289 | true exactly when the counters agree and the first tree's keys are a prefix of the second's; it requires that the iterators it steps can take their last `++` (a root with a right subtree), since stepping off a root without one dereferences a null parent |
| BinaryTree.EqualCounted | binary_tree/binary_tree.hpp:285-289 | for trees whose counters equal their node counts, `==` holds exactly when they hold the same keys, whatever their shapes, provided both roots have a right subtree when the keys agree |
| BinaryTree.DuplicateScenario | binary_tree/binary_tree.hpp:296-311 | adding 1, 1, 2 and adding 1, 2, 3 give counters 3 and 3, and `==` holds although the second tree has a key the first lacks |
| BinaryTree.EmptyButCounted | binary_tree/binary_tree.hpp:313-327 | add 1, add 1, erase 1 leaves no keys, but `size()` is 1 and `is_empty()` is false |
| BinaryTree.CountedScenario | binary_tree/binary_tree.hpp:296-311 | with `AddCounted` the same calls give counters 2 and 3, and `==` tells the trees apart |
| BinaryTree.FromKeys | binary_tree/binary_tree.hpp:244-257 | the tree holds exactly the distinct keys given, in increasing order, its counter is the number of keys given, and for the plain policy its tree of keys is `KBuild` of the keys |
| BinaryTree.CopyOf | binary_tree/binary_tree.hpp:215-219 | the copy holds the same keys and its counter is the number of keys, so, where `==` can step, the copy is `==` to the original exactly when the original's counter is its node count; a copy of a plain tree has the same tree of keys, so the same breadth-first keys, as the original |
| BinaryTree.LevelOrderRebuilds | binary_tree/binary_tree.test.cpp:360-388 | `add`ing a search tree's keys in breadth-first order to an empty plain tree rebuilds its tree of keys: the nodes sit in the same places |
| BinaryTree.SameKeyTreeLevels | binary_tree/binary_tree.test.cpp:374-388 | two shapes with the same tree of keys give the same keys in breadth-first order |
| BinaryTree.SameKeyTreeSteppable | binary_tree/binary_tree.hpp:92-124 | two shapes with the same tree of keys agree on whether the root has a right subtree |
| BinaryTree.LevelOrderFacts | binary_tree/binary_tree.hpp:359-385 | breadth-first order lists every node once, and each node after its parent |
| BinaryTree.TopStep | binary_tree/tree_utils.hpp:20-52 | adding the key of a node whose parent is already placed puts it in its place |
| BinaryTree.AddOneOneTwo | binary_tree/binary_tree.hpp:296-311 | adding 1, 1, 2 to an empty plain tree holds the keys 1, 2 with counter 3, and the root has a right subtree |
| BinaryTree.AddOneTwoThree | binary_tree/binary_tree.hpp:296-311 | adding 1, 2, 3 holds the keys 1, 2, 3 with counter 3 |
| BinaryTree.CountedOneTwoThree | binary_tree/binary_tree.hpp:296-311 | the same with `AddCounted`: keys 1, 2, 3, counter 3 |
| RedBlackScenarios.FirstElementScenario | red_black_tree/red_black_tree.test.cpp:94-113 | adding 42 to an empty red-black tree gives one Black node holding 42 |
| RedBlackScenarios.RecolourScenario | red_black_tree/red_black_tree.test.cpp:116-159 | adding 10, 5, 15, 20 gives, in level order, 10 Black, 5 Black, 15 Black, 20 Red |
| RedBlackScenarios.LeftLeftScenario | red_black_tree/red_black_tree.test.cpp:167-200 | adding 10, 5, 2 gives, in level order, 5 Black, 2 Red, 10 Red |
| RedBlackScenarios.LeftRightScenario | red_black_tree/red_black_tree.test.cpp:202-235 | adding 10, 5, 7 gives, in level order, 7 Black, 5 Red, 10 Red |
| RedBlackScenarios.RightRightScenario | red_black_tree/red_black_tree.test.cpp:237-270 | adding 10, 12, 15 gives, in level order, 12 Black, 10 Red, 15 Red |
| RedBlackScenarios.RightLeftScenario | red_black_tree/red_black_tree.test.cpp:272-305 | adding 10, 12, 11 gives, in level order, 11 Black, 10 Red, 12 Red |
| RedBlackScenarios.AddKnown | binary_tree/binary_tree.hpp:296-311 | `add` on a red-black tree of known shape and payload leaves the shape and payload `RbInsert` computes on them |
| RedBlackScenarios.TwentyRecolours | red_black_tree/red_black_tree.hpp:113-125 | 20 under 15 with 5 and 15 Red: both turn Black, 10 Red and then, as the root, Black |
| RedBlackScenarios.TwoRotates | red_black_tree/red_black_tree.hpp:144-149 | 2 under 5 under 10 with no aunt: a right rotation at 10, 5 Black on top |
| RedBlackScenarios.SevenRotates | red_black_tree/red_black_tree.hpp:150-155 | 7 right of 5 under 10: a left-right rotation, 7 Black on top |
| RedBlackScenarios.FifteenRotates | red_black_tree/red_black_tree.hpp:156-161 | 15 right of 12 right of 10: a left rotation at 10, 12 Black on top |
| RedBlackScenarios.ElevenRotates | red_black_tree/red_black_tree.hpp:162-167 | 11 left of 12 right of 10: a right-left rotation, 11 Black on top |

## Left out

- Move constructors, move assignments, destructors and `unique_ptr` ownership (binary_tree/binary_tree.hpp:221-242; the defaulted moves of the list and the array): the model treats copies as value copies and has no ownership to transfer.
- The copy assignment of `binary_tree` (binary_tree/binary_tree.hpp:229-235) is `CopyOf` followed by a move, so it has no member of its own.
- `binary_tree(std::unique_ptr<node_type>)` (binary_tree/binary_tree.hpp:280-283): no code path uses it, and it adopts an existing node structure.
- The container constructor (binary_tree/binary_tree.hpp:259-278) adds the container's elements in order, which is `FromKeys`.
- The postfix `operator++(int)` and `operator--(int)`, `node()`, and the `!=` of the tree and the iterator: each is a copy of, or the negation of, a modelled member.
- `preorder_traverse` and `postorder_traverse` (binary_tree/tree_utils.hpp:106-137): they recurse through `inorder_traverse` for the children, so they are neither preorder nor postorder.
- The const `front()`/`back()` of `static_array`, which call themselves without end; the const `at`, which has no bounds check; and the `idx_t` overloads of `operator[]`, which are compile-time checks.
- The iterator types of the list and of `static_array`: an iterator is a node index or an array index.
- Red-black deletion: `red_black_tree_balancing` has no `erase_node`, so `erase` cannot be instantiated for `red_black_tree`. BinaryTree.BinaryTree.Erase requires `NullBalancing` for that reason.
- Duplicate keys: the code rejects an equal key in `node::add`, and the model follows the code. No `<=` policy is modelled.
- TreeIterator.Iterator.Increment: it requires that the node has a right child or a parent. From a root without a right child the source dereferences a null `parent` (binary_tree/binary_tree.hpp:101), which is undefined behaviour and not modelled as a crash.
- TreeIterator.Iterator.Decrement: it requires that a node without a left child has a parent. `--` from a root without a left child dereferences a null `parent` (binary_tree/binary_tree.hpp:144); that is `--begin()`, which the iterator's users must not do anyway.
- BinaryTree.BinaryTree.Walk: it requires the root to have a right child, because of the same null dereference.
- BinaryTree.Equal: when the counters agree, `std::equal` steps the first tree's iterator off its last node, and the second's too when the keys agree, so it requires that those roots have a right subtree (`Steppable`). Otherwise the last `++` dereferences the root's null parent (binary_tree/binary_tree.hpp:101), which is undefined behaviour and not modelled.
- BinaryTree.EqualCounted: it requires, for the same reason, that both roots have a right subtree when the keys agree.
- BinaryTree.CopyOf: whether the copy is `==` to the original is stated only when both roots have a right subtree, for the same reason. For the plain policy the copy has a right subtree exactly when the original does.
- BinaryTree.BinaryTree.Add: the counter `_size` is an unbounded natural number. The `std::size_t` wrap-around after 2^64 calls is not modelled for the tree, though it is for the list.
- SinglyLinkedList.SinglyLinkedList.Insert and SinglyLinkedList.SinglyLinkedList.InsertAfter: they require a non-empty list for an insertion after a node, as the `assert`s in `insert_after` demand (linked_list/singly_linked_list.hpp:290-291).
- SinglyLinkedList.SinglyLinkedList.PopBack: it requires that a counter above 1 means at least two nodes. With a stale counter (after `merge`) the source walks off the end of a shorter chain.
- SinglyLinkedList.ApplyInReverse, SinglyLinkedList.ApplyInReverseIterative and SinglyLinkedList.ApplyInReverseRecursive: they require `start` not to come after `end`. Otherwise the loops walk off the end of the list.
- StaticArray.StaticArray.constructor: default-initialised elements have unspecified values, so the contract does not say what they hold.
- Visitors, callbacks and `std::queue` are modelled by returned sequences and a sequence-valued queue. Stream printing (`operator<<` for `Colour`), `std::cout` and the random keys of the fuzz test are not modelled.
- The compile-time type traits and concepts (`is_regular_v`, `is_range_v`, `is_bidirectional_v`, `ccept::Range`) have no run-time behaviour.

## Findings

| source | as written | input that shows it | evidently intended | confidence | as-written member | corrected member |
|---|---|---|---|---|---|---|
| binary_tree/binary_tree.hpp:296-311 | `add` ignores the result of `root->add(n)` (line 307) and runs `++_size` (line 310) even when the key was rejected as a duplicate; `operator==` compares the counters and then only a prefix of the keys | add 1, 1, 2 to one tree and 1, 2, 3 to another: both counters are 3 and `==` is true. Add 1, 1 and erase 1: `is_empty()` is false with no keys. A copy of such a tree is not `==` to it | the counter counts only added nodes, so that `size()` is the node count and `==` means equal key sets | not executed | BinaryTree.BinaryTree.Add, BinaryTree.DuplicateScenario, BinaryTree.EmptyButCounted | BinaryTree.BinaryTree.AddCounted, BinaryTree.CountedScenario, BinaryTree.EqualCounted |
| binary_tree/binary_tree.hpp:92-124 | `++` on a node without a right child reads `np->parent->left` (line 101) before checking that `parent` is not null | add 2 then 1 (or add a single key) and walk from `begin()`: the last `++` is taken at the root, which has no right child and no parent | the last node in in-order goes to `end()` | not executed | TreeIterator.Iterator.Increment, TreeIterator.RootLastWithoutRight | TreeIterator.Iterator.IncrementChecked, BinaryTree.BinaryTree.WalkChecked |
| linked_list/singly_linked_list.hpp:362-399 | `merge` moves all of `other`'s nodes into the list but never adds `other._size` to `_size` | merge the list [2] into [1]: the list holds 1, 2 and `size()` is 1 | `_size` grows by the merged list's size | not executed | SinglyLinkedList.SinglyLinkedList.Merge | SinglyLinkedList.SinglyLinkedList.MergeCounted |

# AVL tree engine and command-token helpers

This project models the AVL search tree behind a small command-driven
program, plus the two string helpers that vet and convert its numeric
tokens.

**The AVL engine** (`AVL_tree.h`, with `Record` fixed to `int`) is modelled
at two levels.

- **Values.** A node is the datatype `Tree`: a key, two subtrees and a balance
  tag (`left_higher`, `equal_height` or `right_higher`). `avl_insert`,
  `avl_delete`, `left_balance`, `right_balance`, `rotate_left` and
  `rotate_right` become functions with the same branches in the same order.
  The rebalancers set tags first and then rotate, and the rotations never
  touch a tag. The functions' contracts state what the engine promises:
  - BST order, the AVL height condition and correct tags at every node;
  - the key set gains or loses exactly the key;
  - duplicate and absent keys leave the tree unchanged;
  - the taller/shorter flag is true exactly when the height changed by one.
- **Heap.** `AvlNode` is a class with `data`, `left`, `right` and `bal`
  fields, updated in place. Every procedure that rebinds a
  `Binary_node<Record> *&` slot returns the node the caller stores in that
  slot. Each heap method is proved to build the subtree that the value
  function computes from the old subtree, so the value lemmas carry over.
  The in-order successor search is the engine's `while` loop.
  `AvlTree.Insert` and `AvlTree.Remove` run the engine on the tree's root
  slot.

**The helpers** (`utility.cpp`): `isNumber` is a scan over the characters,
and `string_to_int` reads a digit string left to right. The model proves the
scan equals the positional base-10 value.

## Model

| member | source | states |
|---|---|---|
| AvlRotate.RotateLeft | AVL_tree.h:179-196 | with a non-empty right child, the former right child becomes the root and the old root its left child, taking over the child's left subtree; tags are untouched and the in-order key sequence is unchanged |
| AvlRotate.RotateRight | AVL_tree.h:198-219 | mirror of RotateLeft: the former left child becomes the root, tags untouched, in-order sequence unchanged |
| AvlRotate.RotationsInverse | AVL_tree.h:179-219 | rotate_right undoes rotate_left and rotate_left undoes rotate_right |
| AvlRotate.RotationKeepsSearchOrder | AVL_tree.h:179-196 | rotate_left keeps the key set, and the result is a BST exactly when the input was |
| AvlRotate.RightRotationKeepsSearchOrder | AVL_tree.h:198-219 | rotate_right keeps the key set, and the result is a BST exactly when the input was |
| AvlRotate.RightBalance | AVL_tree.h:121-176 | on a subtree two levels heavier on the right: the result is balanced with correct tags and the same in-order keys; the flag is false exactly when the right child was equal_height; the height drops by one exactly when the flag is true; the new root is equal_height in the height-dropping cases and left_higher otherwise |
| AvlRotate.LeftBalance | AVL_tree.h:221-279 | mirror of RightBalance for a subtree two levels heavier on the left (new root right_higher in the equal_height case) |
| AvlRotate.DoubleRotationRight | AVL_tree.h:150-173 | the double rotation of right_balance yields a balanced subtree, the same in-order keys, and one level less height |
| AvlRotate.RightBalanceDoubleShape | AVL_tree.h:150-173 | when the right child is left_higher, right_balance returns the grandchild on top with equal_height, the old root on its left and the old child on its right, each with the tag the three-way table picks |
| AvlRotate.RightDoubleTable | AVL_tree.h:153-169 | for every grandchild tag, the tag table (equal → both equal_height; left_higher → root equal_height, child right_higher; right_higher → root left_higher, child equal_height) gives correct tags and a balanced subtree of height h+2 |
| AvlRotate.DoubleRotationLeft | AVL_tree.h:249-276 | mirror of DoubleRotationRight for left_balance |
| AvlRotate.LeftBalanceDoubleShape | AVL_tree.h:249-276 | when the left child is right_higher, left_balance returns the grandchild on top with equal_height, the old left child on its left and the old root on its right, tagged by the mirror table |
| AvlRotate.LeftDoubleTable | AVL_tree.h:252-271 | mirror of RightDoubleTable: the left_balance tag table gives correct tags and a balanced subtree |
| AvlInsertion.AvlInsert | AVL_tree.h:50-118 | a duplicate returns duplicate_error, not taller and the same tree; otherwise success, keys become old plus the key; the result is ordered, balanced and correctly tagged; taller exactly when the height grew by one; a grown non-empty subtree never has an equal_height root |
| AvlInsertion.GrewLeft | AVL_tree.h:77-96 | the left-side tag table after a left subtree grew: result valid, same keys, height as stated, taller only if the child grew, and a taller result is never equal_height |
| AvlInsertion.GrewRight | AVL_tree.h:97-116 | mirror of GrewLeft for the right side |
| AvlInsertion.InsertLeftStep | AVL_tree.h:78-96 | if the recursive call keeps avl_insert's promise for the left subtree, the left-side table keeps it for the node |
| AvlInsertion.InsertRightStep | AVL_tree.h:98-116 | mirror of InsertLeftStep |
| AvlInsertion.InsertNeverBalancesEqualChild | AVL_tree.h:84-87 | when insertion calls left_balance, the grown left child is never equal_height, so left_balance's equal_height branch is unreachable from insertion, and the node reports not taller |
| AvlInsertion.InsertNeverBalancesEqualChildRight | AVL_tree.h:111-114 | when insertion calls right_balance, the grown right child is never equal_height, so the branch marked impossible at AVL_tree.h:143 is unreachable from insertion, and the node reports not taller |
| AvlDeletion.MinKey | AVL_tree.h:370-375 | the leftmost key is a key of the subtree and, in a BST, the least one |
| AvlDeletion.AvlDelete | AVL_tree.h:281-404 | an absent key returns not_present, not shorter and the same tree; otherwise success, keys become old minus the key; the result is ordered, balanced and correctly tagged; shorter exactly when the height dropped by one |
| AvlDeletion.ShrankLeft | AVL_tree.h:301-317 | the left-side table after a left subtree shrank: result valid, same keys, height as stated, shorter only if the child shrank |
| AvlDeletion.ShrankRight | AVL_tree.h:324-340 | mirror of ShrankLeft; the same table runs in the two-children case (AVL_tree.h:384-400) |
| AvlDeletion.DeleteLeftStep | AVL_tree.h:297-318 | if the recursive call keeps avl_delete's promise for the left subtree, the left-side table keeps it for the node |
| AvlDeletion.DeleteRightStep | AVL_tree.h:321-341 | mirror of DeleteLeftStep |
| AvlDeletion.SpliceStep | AVL_tree.h:347-366 | a matched node with an empty side is replaced by its other child, success and always shorter, and the promise holds |
| AvlDeletion.DeleteSuccessorStep | AVL_tree.h:368-401 | overwriting the key with the right subtree's least key, deleting that key on the right and running the right-side table keeps avl_delete's promise for the node's original key |
| AvlDeletion.DeleteReachesEqualHeightCase | AVL_tree.h:143-148 | for any keys a<b<c<d<e, deleting a from b(a, d(c, e)) reaches right_balance with an equal_height right child; the result is d(b(-, c), e), tagged left_higher/right_higher, and not shorter |
| AvlDeletion.DeleteReachesLeftEqualHeightCase | AVL_tree.h:242-247 | for any keys a<b<c<d<e, deleting e from d(b(a, c), e) reaches left_balance with an equal_height left child; the result is b(a, d(c, -)), tagged right_higher/left_higher, and not shorter |
| AvlModel.OrderedIffSorted | AVL_tree.h:24-28 | a subtree is a BST exactly when its in-order sequence is strictly increasing |
| AvlModel.SizeBound | AVL_tree.h:24-28 | a balanced subtree of height h has at least MinSize(h) nodes, the Fibonacci-like minimum |
| AvlModel.HeightBound | AVL_tree.h:24-28 | a balanced subtree of n nodes has 2^(height/2) <= n+1, i.e. logarithmic height |
| AvlHeap.AvlNode.constructor | AVL_tree.h:69 | a new node is a leaf with an equal_height tag |
| AvlHeap.RotateLeft | AVL_tree.h:179-196 | in place: the old right child node is returned as the new slot content and the old root node becomes its left child; footprint unchanged, and the value is the value-level rotate_left of the old subtree |
| AvlHeap.RotateRight | AVL_tree.h:198-219 | in place mirror of RotateLeft: the old left child node is returned and the old root node becomes its right child |
| AvlHeap.SetBal | AVL_tree.h:89 | set_balance changes only the node's tag |
| AvlHeap.SetData | AVL_tree.h:378 | overwriting the key changes only the node's key |
| AvlHeap.SetRightBal | AVL_tree.h:140 | set_balance through `right_tree`: only the tag of n's right child changes; n keeps its footprint and links |
| AvlHeap.SetLeftBal | AVL_tree.h:238 | set_balance through `left_tree`: only the tag of n's left child changes; n keeps its footprint and links |
| AvlHeap.SetRightLeftBal | AVL_tree.h:169 | set_balance on `sub_tree`, the left child of the right child: only that node's tag changes |
| AvlHeap.SetLeftRightBal | AVL_tree.h:271 | set_balance on `sub_tree`, the right child of the left child: only that node's tag changes |
| AvlHeap.RotateRightChild | AVL_tree.h:171 | `rotate_right(right_tree)` rebinds n's right slot: n's value becomes the old value with its right subtree rotated right; footprint unchanged |
| AvlHeap.RotateLeftChild | AVL_tree.h:274 | `rotate_left(left_tree)` rebinds n's left slot: n's value becomes the old value with its left subtree rotated left; footprint unchanged |
| AvlHeap.RightBalance | AVL_tree.h:121-176 | in place: tags are written first, then the rotations run; the new subtree and flag are exactly the value-level right_balance of the old subtree |
| AvlHeap.LeftBalance | AVL_tree.h:221-279 | in place mirror of RightBalance |
| AvlHeap.LinkLeft | AVL_tree.h:80 | storing a returned subtree in the left slot keeps the node's key, tag and right child, and the node's value follows the new left subtree |
| AvlHeap.LinkRight | AVL_tree.h:100 | mirror of LinkLeft |
| AvlHeapInsertion.AvlInsert | AVL_tree.h:50-118 | in place: the returned slot content owns only the old nodes plus fresh ones; code, taller and subtree equal the value-level avl_insert |
| AvlHeapInsertion.DescendLeft | AVL_tree.h:80 | the recursive call on the left slot rebinds it to the value-level insert result and changes nothing else of the node |
| AvlHeapInsertion.DescendRight | AVL_tree.h:100 | mirror of DescendLeft |
| AvlHeapInsertion.GrewLeft | AVL_tree.h:81-95 | in place left-side tag table of avl_insert, equal to the value-level GrewLeft |
| AvlHeapInsertion.GrewRight | AVL_tree.h:101-115 | in place right-side tag table of avl_insert, equal to the value-level GrewRight |
| AvlHeapDeletion.AvlDelete | AVL_tree.h:281-404 | in place: the returned slot content owns only nodes of the old subtree; code, shorter and subtree equal the value-level avl_delete |
| AvlHeapDeletion.SuccessorKey | AVL_tree.h:370-375 | the loop down left links ends at the least key of the right subtree |
| AvlHeapDeletion.RemoveWithTwoChildren | AVL_tree.h:368-401 | in place two-children case: successor key copied into the node, deleted on the right, right-side table run; equals the value-level avl_delete of the node's old key |
| AvlHeapDeletion.DescendLeft | AVL_tree.h:299 | the recursive call on the left slot rebinds it to the value-level delete result and changes nothing else of the node |
| AvlHeapDeletion.DescendRight | AVL_tree.h:323 | mirror of DescendLeft, also used for the successor at AVL_tree.h:381 |
| AvlHeapDeletion.ShrankLeft | AVL_tree.h:301-317 | in place left-side tag table of avl_delete, equal to the value-level ShrankLeft |
| AvlHeapDeletion.ShrankRight | AVL_tree.h:324-340 | in place right-side tag table of avl_delete, equal to the value-level ShrankRight |
| AvlTrees.AvlTree.constructor | AVL_tree.h:1-2 | a new tree is empty and valid |
| AvlTrees.AvlTree.Insert | AVL_tree.h:21-35 | duplicate_error exactly when the key was present, and then nothing changes; keys become old plus the key; the tree stays a valid AVL search tree |
| AvlTrees.AvlTree.Remove | AVL_tree.h:37-48 | not_present exactly when the key was absent, and then nothing changes; keys become old minus the key; the tree stays a valid AVL search tree |
| Utility.DigitsFrom | utility.cpp:12-13 | the scan from position i is true exactly when every character from i on is a decimal digit |
| Utility.IsNumber | utility.cpp:10-16 | true exactly when the string is non-empty and all its characters are digits (so "" and signed strings are rejected) |
| Utility.StringToInt | utility.cpp:3-8 | for a digit string whose value fits in an int, the result is its base-10 value, in 0..INT_MAX |
| Utility.AccumulateIsPositional | utility.cpp:6 | reading digits left to right (value*10 + digit) gives the positional base-10 value |
| Utility.PositionalSnoc | utility.cpp:6 | appending a digit multiplies the value by ten and adds the digit |
| Utility.LeadingZero | utility.cpp:6 | a leading zero does not change the value |
| Utility.PositionalBound | utility.cpp:6 | an n-digit string has a value below 10^n |
| Utility.NineDigitsFit | utility.cpp:3-8 | every digit string of at most nine digits fits in an int, so the conversion is defined on it |

## Left out

- `main.cpp` (file reading, command-line checks, the exception structs that print, the token loop) is not part of this model: it is glue around the tree.
- `print()` and the base classes `Binary_tree`, `Search_tree`, `Binary_node` and `AVL_node` are not part of this model. Only the node fields and the tag accessors the engine uses are modelled.
- AvlRotate.RotateLeft, AvlRotate.RotateRight, AvlHeap.RotateLeft, AvlHeap.RotateRight: the "program error" warnings printed for a missing child are not modelled. A non-empty child is a precondition instead.
- AvlRotate.RightBalance, AvlRotate.LeftBalance, AvlHeap.RightBalance, AvlHeap.LeftBalance: these require the subtree to be exactly two levels heavier on the side being fixed, which the header comment demands. The trailing `return true` after the switch cannot be reached with a valid tag and is not modelled.
- Memory management (`new`, `delete`) is not modelled: nothing is freed. A spliced-out node is no longer reachable and its key leaves the key set, but the ghost footprints (`Repr`) of its former ancestors, and the tree's own `Repr`, still list it. Only when the spliced node is the subtree root itself does the returned subtree's footprint drop it.
- AvlHeapDeletion.RemoveWithTwoChildren: the successor key is passed to the recursive call by value. The engine passes `successor->data` by reference, a node that the call frees; the reference is not read after that, so a copy behaves the same.
- Utility.StringToInt: its behaviour on strings whose value exceeds INT_MAX, on whitespace, signs or other non-digits is `istringstream` library behaviour and is not modelled. It is defined only on digit strings that fit in an int.
- `Record` is fixed to `int`, the instantiation the program uses. Templates and other key types are not modelled.
- AvlTrees.AvlTree.Insert and AvlTrees.AvlTree.Remove return only the code. The taller and shorter flags are dropped, as in the engine.

# Data structures: ordered-map trees, linked lists, merge sort and recursion

This project is a Dafny model of the data-structure library in
`Data-Structures-Project-2025`. The contracts prove what each operation
computes.

The centre of the library is an ordered map kept in a binary search tree
whose leaves are sentinels. Every internal node holds an entry and has
exactly two children. A new key turns the sentinel where the search stopped
into an internal node with two fresh sentinels.

- **`TreeMap`** is the unbalanced map. It has three rebalancing hooks that
  do nothing.
- **`AVLTreeMap`** overrides the hooks. It keeps subtree heights in each
  node's auxiliary slot and repairs the tree with trinode restructuring.
- **`Treap`** gives each node a priority in `[0, 999]`. On insert it bubbles
  the node up by single rotations. On removal it first rotates the node down
  until both children are sentinels.

Alongside the map the library has:

- a general linked binary tree (`LinkedBinaryTree`), with traversals,
  height, depth, diameter, successor and predecessor search, and building
  a tree from its in-order and pre-order sequences;
- a singly and a doubly linked list;
- a top-down merge sort;
- five recursive functions: Fibonacci (plain and memoised), Tribonacci,
  McCarthy's 91 function and a binary-digit printer.

How the model represents each part:

- **Tree map.** The node graph is a value of the datatype
  `BalanceableBinaryTree.Tree` (`Leaf` or `Node(left, entry, right, aux,
  priority)`). A position is the path of left/right steps from the root.
  `TreeMap.TreeMap` is a class whose `tree` and `nodes` fields every
  update reassigns. Its `balancing` field says which of the three classes
  the map is, and the hooks and the treap's `put`/`remove` dispatch on it.
  The abstract view of the map is the in-order entry sequence
  `Entries(tree)`. The operations are proved against the sorted-sequence
  functions in `SortedEntries`: `Lookup`, `Upsert`, `Delete`, `CeilingOf`
  and the others.
- **AVL and treap.** The rebalancing of `AVLTreeMap` and the rotations of
  `Treap` are methods on tree values. They carry loop invariants stating
  the AVL property or heap order respectively.
- **Rotations.** `rotate` and `restructure` live in
  `BalanceableBinaryTree.java`, which is not part of this model. They are
  defined here from their use, with contracts: the in-order entry sequence
  is preserved, `rotate(x)` puts x above its parent, and `restructure(x)`
  returns the new subtree root.
- **Linked binary tree.** `LinkedBinaryTree.LinkedBinaryTree` holds a
  `BTree` value (`Nil` or `BNode(left, element, right)`) and a `size`
  counter. Elements are `Option<int>`, where `None` is a null element.
- **Lists.** Both lists keep their nodes in sequences indexed by node
  number: element, `next`, and for the doubly linked list `prev`. `-1` is
  null. A ghost sequence `nodes` names the chain from `head`. Methods
  relink by updating these sequences in place.
- **Merge sort** works on arrays, as the Java code does.
- **Recursion.** The recursive functions are Dafny functions on
  mathematical integers. Their preconditions keep the argument where the
  Java `int` or `long` result does not overflow.

Java exceptions (`NullPointerException`, `IndexOutOfBoundsException`,
`IllegalStateException`, `IllegalArgumentException`) are returned as
`Outcome.Thrown` values, so that the failing paths are modelled too.

## Model

| member | source | states |
|---|---|---|
| LinkedBinaryTree.LinkedBinaryTree.constructor | src/tree/LinkedBinaryTree.java:29-31 | a new tree has no root and size 0 |
| LinkedBinaryTree.LinkedBinaryTree.Size | src/tree/LinkedBinaryTree.java:499-501 | size() is the number of nodes, which equals the length of the element sequence |
| LinkedBinaryTree.LinkedBinaryTree.IsEmpty | src/tree/LinkedBinaryTree.java:102-104 | empty exactly when there is no root, that is, when there are no elements |
| LinkedBinaryTree.LinkedBinaryTree.Sibling | src/tree/LinkedBinaryTree.java:113-120 | the root has no sibling; a sibling is another valid position with the same parent and depth; none is returned only when the parent's other slot is empty |
| LinkedBinaryTree.LinkedBinaryTree.SiblingSymmetric | src/tree/LinkedBinaryTree.java:113-120 | the sibling of p's sibling is p |
| LinkedBinaryTree.LinkedBinaryTree.Children | src/tree/LinkedBinaryTree.java:297-302 | lists exactly the present children, left before right, each one step below p |
| LinkedBinaryTree.LinkedBinaryTree.NumChildren | src/tree/LinkedBinaryTree.java:311-317 | 0 exactly when both child links are null and 2 exactly when both are present |
| LinkedBinaryTree.LinkedBinaryTree.IsInternal | src/tree/LinkedBinaryTree.java:135-137 | internal exactly when the height of p is positive |
| LinkedBinaryTree.LinkedBinaryTree.IsExternal | src/tree/LinkedBinaryTree.java:286-288 | external exactly when the height of p is 0 |
| LinkedBinaryTree.LinkedBinaryTree.IsRoot | src/tree/LinkedBinaryTree.java:274-276 | root exactly when the depth of p is 0 |
| LinkedBinaryTree.LinkedBinaryTree.Depth | src/tree/LinkedBinaryTree.java:231-237 | the depth is the number of steps from the root to p |
| LinkedBinaryTree.LinkedBinaryTree.Height | src/tree/LinkedBinaryTree.java:260-266 | the height of p is the length of the longest downward path from p, and such a path exists |
| LinkedBinaryTree.LinkedBinaryTree.HeightBounds | src/tree/LinkedBinaryTree.java:260-266 | no position lies deeper than the height of the tree |
| LinkedBinaryTree.LinkedBinaryTree.GetDiameter | src/tree/LinkedBinaryTree.java:390-402 | returns the node height of n and the larger of the running diameter and the widest path through any node of n |
| LinkedBinaryTree.LinkedBinaryTree.Diameter | src/tree/LinkedBinaryTree.java:404-411 | 0 for an empty tree; otherwise no node has a longer path through it, and some node has a path of exactly this length |
| LinkedBinaryTree.LinkedBinaryTree.AddRoot | src/tree/LinkedBinaryTree.java:554-559 | throws IllegalStateException on a non-empty tree; otherwise the tree is the single node e |
| LinkedBinaryTree.LinkedBinaryTree.AddLeft | src/tree/LinkedBinaryTree.java:580-589 | throws IllegalStateException if the left slot is taken; otherwise the new node is p's left child, size grows by 1, and e enters the in-order sequence just before p |
| LinkedBinaryTree.LinkedBinaryTree.AddRight | src/tree/LinkedBinaryTree.java:601-610 | throws IllegalStateException if the right slot is taken; otherwise the new node is p's right child, size grows by 1, and e enters the in-order sequence just after p |
| LinkedBinaryTree.LinkedBinaryTree.Set | src/tree/LinkedBinaryTree.java:621-625 | returns the old element and replaces only the element at p; the shape and size are unchanged |
| LinkedBinaryTree.LinkedBinaryTree.Remove | src/tree/LinkedBinaryTree.java:642-665 | throws IllegalArgumentException for a node with two children; otherwise returns its element, its only child (or null) takes its place, size drops by 1, and only that element leaves the in-order sequence |
| LinkedBinaryTree.LinkedBinaryTree.InorderSubtree | src/tree/LinkedBinaryTree.java:146-150 | appends the in-order positions of p's subtree to the snapshot |
| LinkedBinaryTree.LinkedBinaryTree.Inorder | src/tree/LinkedBinaryTree.java:188-194 | lists, without repeats, exactly the positions whose element is not null, in in-order |
| LinkedBinaryTree.LinkedBinaryTree.PreorderSubtree | src/tree/LinkedBinaryTree.java:159-166 | appends the pre-order positions of p's subtree to the snapshot |
| LinkedBinaryTree.LinkedBinaryTree.Preorder | src/tree/LinkedBinaryTree.java:173-181 | lists, without repeats, exactly the positions whose element is not null, every ancestor before its descendants |
| LinkedBinaryTree.LinkedBinaryTree.PostorderSubtree | src/tree/LinkedBinaryTree.java:203-207 | appends the post-order positions of p's subtree to the snapshot |
| LinkedBinaryTree.LinkedBinaryTree.Postorder | src/tree/LinkedBinaryTree.java:214-218 | lists every position once, every descendant before its ancestors |
| LinkedBinaryTree.LinkedBinaryTree.BreadthFirst | src/tree/LinkedBinaryTree.java:418-430 | lists every position once, level by level and left to right within a level (strict level order, which with the membership clause fixes the list) |
| LinkedBinaryTree.LinkedBinaryTree.FindMinimum | src/tree/LinkedBinaryTree.java:320-325 | reaches the node with no left child that holds the first element of p's subtree in in-order |
| LinkedBinaryTree.LinkedBinaryTree.FindMaximum | src/tree/LinkedBinaryTree.java:328-333 | reaches the node with no right child that holds the last element of p's subtree in in-order |
| LinkedBinaryTree.LinkedBinaryTree.SuccessorFrom | src/tree/LinkedBinaryTree.java:336-357 | from a slot that splits the keys at key, on a search tree, returns the node with the least key greater than key, or null; a failure is only a NullPointerException |
| LinkedBinaryTree.LinkedBinaryTree.InorderSuccessor | src/tree/LinkedBinaryTree.java:382-384 | on a search tree, returns the node with the least key greater than key, or null when there is none |
| LinkedBinaryTree.LinkedBinaryTree.PredecessorFrom | src/tree/LinkedBinaryTree.java:359-380 | from a slot that splits the keys at key, on a search tree, returns the node with the greatest key less than key, or null |
| LinkedBinaryTree.LinkedBinaryTree.InorderPredecessor | src/tree/LinkedBinaryTree.java:386-388 | on a search tree, returns the node with the greatest key less than key, or null when there is none |
| LinkedBinaryTree.LinkedBinaryTree.ConstructTree | src/tree/LinkedBinaryTree.java:450-466 | on index ranges of any lengths and array entries that may be null, returns the subtree ConstructRange gives (a null entry becoming a null-element node, and null matching null in the search) or its ArrayIndexOutOfBoundsException, and size grows by every node created, also those created before an exception; the search loop keeps the pending result unchanged while it skips unequal elements |
| LinkedBinaryTree.LinkedBinaryTree.Construct | src/tree/LinkedBinaryTree.java:441-448 | for arrays of any lengths whose entries may be null, root becomes construct_tree's tree, or stays as it was when construct_tree throws and the exception is passed on; size grows by the nodes created either way; equally long arrays never throw, root becomes Build(inorder, preorder) and size grows by its node count |
| LinkedBinaryTree.LinkedBinaryTree.LevelOrderHelper | src/tree/LinkedBinaryTree.java:698-708 | builds the subtree rooted at array slot i, with children at 2i+1 and 2i+2, and counts its nodes into size |
| LinkedBinaryTree.LinkedBinaryTree.CreateLevelOrder | src/tree/LinkedBinaryTree.java:694-696 | a position exists exactly when every slot along its path lies in the array, and each node holds the element of its slot |
| LinkedNodes.InorderMeaning | src/tree/LinkedBinaryTree.java:146-150 | the in-order positions are distinct and are exactly the nodes with a non-null element |
| LinkedNodes.InorderValues | src/tree/LinkedBinaryTree.java:188-194 | without null elements, the i-th in-order position holds the i-th in-order value |
| LinkedNodes.PreorderMeaning | src/tree/LinkedBinaryTree.java:159-166 | the pre-order positions are distinct, are exactly the non-null nodes, and put ancestors first |
| LinkedNodes.PreorderValues | src/tree/LinkedBinaryTree.java:173-181 | without null elements, the i-th pre-order position holds the i-th pre-order value |
| LinkedNodes.PostorderMeaning | src/tree/LinkedBinaryTree.java:203-207 | the post-order positions are distinct, are all the nodes, and put descendants first |
| LinkedNodes.HeightBound | src/tree/LinkedBinaryTree.java:260-266 | every position is at most the height deep |
| LinkedNodes.Deepest | src/tree/LinkedBinaryTree.java:260-266 | some position lies exactly at the height |
| LinkedNodes.NodeHeightIsHeight | src/tree/LinkedBinaryTree.java:390-402 | the height that getDiameter returns is the tree height plus one |
| LinkedNodes.SpanBound | src/tree/LinkedBinaryTree.java:390-411 | no node has a longer path through it than the recorded diameter |
| LinkedNodes.Widest | src/tree/LinkedBinaryTree.java:390-411 | some node has a path through it as long as the diameter |
| LinkedNodes.IndexOf | src/tree/LinkedBinaryTree.java:456-457 | the scan for the root value stops at its first occurrence, or at the end when it is absent |
| LinkedNodes.BuildAt | src/tree/LinkedBinaryTree.java:453-463 | when the root value occurs at in-order index k, the tree is that root over the trees built from the two halves |
| LinkedNodes.BuildMissing | src/tree/LinkedBinaryTree.java:453-465 | when the root value is missing from the in-order range, the node gets no children |
| LinkedNodes.ConstructRange | src/tree/LinkedBinaryTree.java:450-455 | an empty range on either side gives null and creates nothing; a preorder start outside the array throws ArrayIndexOutOfBoundsException before any node is created; at most one node is created per inorder index, and a returned tree has exactly the nodes created |
| LinkedNodes.ConstructScan | src/tree/LinkedBinaryTree.java:456-465 | the search loop creates at least the node itself and at most one node per inorder index, and a returned tree has exactly the nodes created |
| LinkedNodes.Join | src/tree/LinkedBinaryTree.java:458-462 | a tree is returned exactly when both sides returned, with them as the node's children; an exception from the left side ends the call before the right side adds any node |
| LinkedNodes.ScanSkips | src/tree/LinkedBinaryTree.java:456-457 | skipping inorder elements that differ from the root does not change what the loop yields |
| LinkedNodes.ConstructRangeAgrees | src/tree/LinkedBinaryTree.java:441-466 | on in-bounds ranges of equal length construct_tree never throws and returns the tree Rebuild describes |
| LinkedNodes.ShortPreorderRepeats | src/tree/LinkedBinaryTree.java:458-459 | inorder [1, 2] with preorder [1] gives 1 with a right child 1, counting two nodes, because the right call reads preorder[0] again |
| LinkedNodes.ShortPreorderThrows | src/tree/LinkedBinaryTree.java:453-459 | inorder [1, 2, 3] with preorder [1] throws ArrayIndexOutOfBoundsException at preorder index -1, after one node was counted |
| LinkedNodes.BuildRoundTrip | src/tree/LinkedBinaryTree.java:441-466 | for a tree with distinct non-null elements, building from its in-order and pre-order sequences gives the tree back |
| LinkedNodes.UnboxElements | src/tree/LinkedBinaryTree.java:453-454 | the tree of array entries read as a tree of nullable elements has the same nodes in order, the i-th holding the i-th entry, null where the entry is null |
| LinkedNodes.LevelBuildMeaning | src/tree/LinkedBinaryTree.java:698-708 | a path exists in the level-order tree exactly when every slot along it is in range, and it holds that slot's element |
| LinkedNodes.SuccessorAtGap | src/tree/LinkedBinaryTree.java:338-340 | reaching a null link where the keys split gives the remembered candidate, which is the successor |
| LinkedNodes.PredecessorAtGap | src/tree/LinkedBinaryTree.java:361-363 | reaching a null link where the keys split gives the remembered candidate, which is the predecessor |
| LinkedNodes.SuccessorAtMin | src/tree/LinkedBinaryTree.java:342-345 | the minimum of the right subtree of the node equal to key is its successor |
| LinkedNodes.PredecessorAtMax | src/tree/LinkedBinaryTree.java:365-368 | the maximum of the left subtree of the node equal to key is its predecessor |
| LinkedNodes.SuccessorAtSplit | src/tree/LinkedBinaryTree.java:336-357 | the first element above key in in-order is the successor |
| LinkedNodes.PredecessorAtSplit | src/tree/LinkedBinaryTree.java:359-380 | the last element below key in in-order is the predecessor |
| LinkedNodes.SearchTreeNoNulls | src/tree/LinkedBinaryTree.java:336-388 | a search tree has no null elements |
| LinkedNodes.AddLeftLeaf | src/tree/LinkedBinaryTree.java:580-589 | a new left leaf enters the in-order sequence just before its parent and adds one node |
| LinkedNodes.AddRightLeaf | src/tree/LinkedBinaryTree.java:601-610 | a new right leaf enters the in-order sequence just after its parent and adds one node |
| LinkedNodes.SetElement | src/tree/LinkedBinaryTree.java:621-625 | set changes the in-order sequence only at p's index, and keeps the shape and node count |
| LinkedNodes.SetKeepsSkeleton | src/tree/LinkedBinaryTree.java:621-625 | replacing an element leaves the shape of the tree unchanged |
| LinkedNodes.RemoveElement | src/tree/LinkedBinaryTree.java:642-665 | splicing out a node with at most one child drops exactly its element from the in-order sequence and removes one node |
| LinkedNodes.QueuedStart | src/tree/LinkedBinaryTree.java:420-422 | the queue holding only the root starts the breadth-first invariant |
| LinkedNodes.QueuedStep | src/tree/LinkedBinaryTree.java:423-427 | dequeuing a node and enqueuing its children keeps the invariant, and the positions left to visit shrink |
| LinkedNodes.QueuedDone | src/tree/LinkedBinaryTree.java:418-430 | with the queue drained, the visited list holds every position once, strictly in level order: shallower first, and left before right at the same depth |
| LinkedNodes.LevelSortedUnique | src/tree/LinkedBinaryTree.java:418-430 | two lists of the same positions, each strictly in level order, are the same list, so breadthfirst's order is fully determined |
| LinkedNodes.PermutesPositions | src/tree/LinkedBinaryTree.java:214-218 | any rearrangement of the post-order positions holds every position exactly once |
| LinkedNodes.Index | src/tree/LinkedBinaryTree.java:146-150 | a node's in-order index lies inside the element sequence |
| BalanceableBinaryTree.RotateUp | src/tree/TreeMap.java:452-454 | a rotation puts the child (with its priority) above the parent, and the parent keeps the child's inner subtree |
| BalanceableBinaryTree.RotateFacts | src/tree/TreeMap.java:452-454 | rotate(p) moves p's node into its parent's position, keeps the in-order entries and the node count, and keeps search-tree order |
| BalanceableBinaryTree.Restructure | src/tree/AVLTreeMap.java:83 | restructure(x) returns the grandparent's position with an internal node that has two internal children, and keeps the in-order entries and the node count |
| BalanceableBinaryTree.RotateAt | src/tree/Treap.java:75-82 | rotating inside a subtree is the same as rotating at the full path |
| BalanceableBinaryTree.RestructureAt | src/tree/AVLTreeMap.java:83 | restructuring a grandchild rebuilds only the subtree at the grandparent |
| BalanceableBinaryTree.SetAuxAt | src/tree/AVLTreeMap.java:52-54 | writing the aux slot inside a subtree is the same as writing it at the full path |
| BalanceableBinaryTree.ReplaceEntries | src/tree/TreeMap.java:85-89 | replacing the subtree at p changes the in-order entries only between the entries before and after p |
| BalanceableBinaryTree.ReplaceCount | src/tree/TreeMap.java:85-89 | replacing a subtree changes the node count by the difference of the two subtrees' counts |
| BalanceableBinaryTree.NodeCountIsOdd | src/tree/TreeMap.java:45-47 | the node count is twice the number of entries plus one, so size() = (nodes - 1) / 2 is the number of entries |
| TreeSearch.Search | src/tree/TreeMap.java:135-148 | treeSearch returns a valid position, and an internal one only when its key equals k |
| TreeSearch.SearchSplits | src/tree/TreeMap.java:135-148 | every entry before the position found has a smaller key, and every entry after it a larger key |
| TreeSearch.SearchFinds | src/tree/TreeMap.java:135-148 | treeSearch stops at an internal node exactly when k is a key of the map |
| TreeSearch.SearchUnique | src/tree/TreeMap.java:135-148 | the internal node holding k is the one that treeSearch finds |
| TreeSearch.InsertAtSearch | src/tree/TreeMap.java:213-215 | expanding the leaf where the search stopped inserts the entry into the sorted entries and keeps search-tree order |
| TreeSearch.ReplaceAtSearch | src/tree/TreeMap.java:217-220 | overwriting the entry found replaces that key's entry and keeps search-tree order |
| TreeSearch.LookupAtSearch | src/tree/TreeMap.java:186-194 | the value at the node found is the map's value for k, and a leaf means k is absent |
| TreeSearch.FoundSplit | src/tree/TreeMap.java:233-254 | the entries split around the node holding k into smaller and larger keys |
| SortedEntries.LookupUpsert | src/tree/TreeMap.java:207-222 | after put(k, v), get(k) is v and every other key reads as before |
| SortedEntries.LookupDelete | src/tree/TreeMap.java:233-254 | after remove(k), get(k) is null and every other key reads as before |
| SortedEntries.UpsertKeys | src/tree/TreeMap.java:207-222 | put adds k to the key set and changes no other key |
| SortedEntries.UpsertOrdered | src/tree/TreeMap.java:207-222 | put keeps the entries in strictly increasing key order |
| SortedEntries.UpsertLength | src/tree/TreeMap.java:207-222 | put grows the map by one exactly when the key was absent |
| SortedEntries.DeleteOrdered | src/tree/TreeMap.java:233-254 | remove keeps key order, removes exactly k from the key set, and shrinks the map only when k was present |
| SortedEntries.DeleteAbsent | src/tree/TreeMap.java:233-254 | removing an absent key leaves the entries unchanged |
| SortedEntries.LookupAbsent | src/tree/TreeMap.java:186-194 | get of an absent key is null |
| SortedEntries.CeilingOfMeaning | src/tree/TreeMap.java:289-301 | ceilingEntry is null exactly when all keys are below k; otherwise it is the entry with the least key at least k |
| SortedEntries.FloorOfMeaning | src/tree/TreeMap.java:312-324 | floorEntry is null exactly when all keys are above k; otherwise it is the entry with the greatest key at most k |
| SortedEntries.LowerOfMeaning | src/tree/TreeMap.java:335-352 | lowerEntry is null exactly when no key is below k; otherwise it is the entry with the greatest key below k |
| SortedEntries.HigherOfMeaning | src/tree/TreeMap.java:363-381 | higherEntry is null exactly when no key is above k; otherwise it is the entry with the least key above k |
| SortedEntries.RangeMembers | src/tree/TreeMap.java:428-450 | subMap's entries are exactly the entries with from <= key < to |
| SortedEntries.RangeOrdered | src/tree/TreeMap.java:428-450 | subMap's entries come in increasing key order |
| SortedEntries.RangeNone | src/tree/TreeMap.java:428-450 | with no key in range, subMap is empty (in particular when from >= to) |
| SortedEntries.RangeAll | src/tree/TreeMap.java:428-450 | with every key in range, subMap is all the entries |
| TreeMap.ExtremeLeft | src/tree/TreeMap.java:156-162 | the node treeMin reaches holds the first entry of the subtree |
| TreeMap.ExtremeRight | src/tree/TreeMap.java:170-176 | the node treeMax reaches holds the last entry of the subtree |
| TreeMap.SpineEnd | src/tree/TreeMap.java:156-176 | walking one way until a sentinel ends at the subtree's extreme node |
| TreeMap.RemoveSpliced | src/tree/TreeMap.java:246-250 | splicing out a node with a sentinel child deletes exactly its key, keeps search-tree order, and removes two nodes |
| TreeMap.PredecessorShape | src/tree/TreeMap.java:241-245 | copying the predecessor's entry into the node leaves the predecessor node and its left subtree in place |
| TreeMap.RemovePredecessor | src/tree/TreeMap.java:241-250 | copying in the in-order predecessor and then splicing out the predecessor node deletes exactly k |
| TreeMap.CeilingStart | src/tree/TreeMap.java:289-301 | ceiling is the entry found, or the first entry after the sentinel where the search stopped |
| TreeMap.FloorStart | src/tree/TreeMap.java:312-324 | floor is the entry found, or the last entry before the sentinel where the search stopped |
| TreeMap.LowerStart | src/tree/TreeMap.java:335-352 | lower is the maximum of the left subtree when there is one, otherwise the last entry before the search position |
| TreeMap.HigherStart | src/tree/TreeMap.java:363-381 | higher is the minimum of the right subtree when there is one, otherwise the first entry after the search position |
| TreeMap.UpFromLeft | src/tree/TreeMap.java:371-378 | climbing from a left child reaches the next entry; climbing from a right child changes nothing that follows |
| TreeMap.UpFromRight | src/tree/TreeMap.java:343-350 | climbing from a right child reaches the previous entry; climbing from a left child changes nothing that precedes |
| TreeMap.InorderPositionsMeaning | src/tree/TreeMap.java:391-399 | the positions entrySet visits are internal and hold the entries in order |
| TreeMap.RangeNode | src/tree/TreeMap.java:437-450 | subMapRecurse skips a left subtree below from and a right subtree at or above to |
| TreeMap.SubMapRecurseMeaning | src/tree/TreeMap.java:437-450 | subMapRecurse appends exactly the in-range entries of the subtree, in order |
| TreeMap.TreeMap.constructor | src/tree/TreeMap.java:24-27 | a new map is a single sentinel (one node, no entries) |
| TreeMap.TreeMap.Size | src/tree/TreeMap.java:45-47 | size() is the number of entries |
| TreeMap.TreeMap.TreeMin | src/tree/TreeMap.java:156-162 | on a sentinel, returns its parent (null at the root); otherwise returns the node with the subtree's least key |
| TreeMap.TreeMap.TreeMax | src/tree/TreeMap.java:170-176 | on a sentinel, returns its parent (null at the root); otherwise returns the node with the subtree's greatest key |
| TreeMap.TreeMap.Get | src/tree/TreeMap.java:186-194 | returns the value stored for k, or null when k is absent |
| TreeMap.TreeMap.ExpandExternal | src/tree/TreeMap.java:85-89 | the sentinel becomes an internal node with the entry, priority 0, two new sentinels, and two more nodes |
| TreeMap.TreeMap.RebalanceInsert | src/tree/TreeMap.java:59-61 | the hook does nothing for the plain map, restores AVL balance for AVLTreeMap, and restores heap order for Treap, without changing the entries |
| TreeMap.TreeMap.RebalanceDelete | src/tree/TreeMap.java:70-72 | the hook does nothing except for AVLTreeMap, where it restores AVL balance without changing the entries, and still does nothing when the promoted child is the root |
| TreeMap.TreeMap.PutEntry | src/tree/TreeMap.java:207-222 | returns the old value (null if absent), upserts the entry, and adds two nodes exactly for a new key; a new key's node has priority 0 |
| TreeMap.TreeMap.Put | src/tree/Treap.java:54-60 | put, including the treap's override: the entries are upserted and the old value is returned; the key's node gets the drawn priority; a new key keeps heap order |
| TreeMap.ReputBreaksHeap | src/tree/Treap.java:54-60 | a search tree in heap order with 1 (priority 500) over 2 (priority 100) loses heap order when the root keeps its place and takes priority 50, which is the tree Put leaves when 1 is put again with the draw 50 |
| TreeMap.TreeMap.PutCorrected | src/tree/Treap.java:54-60 | returns the old value and upserts as put does, a new key's node carries the draw, and heap order holds after every put, whether the key was new or present |
| TreeMap.TreeMap.RemoveEntry | src/tree/TreeMap.java:233-254 | returns the removed value or null, deletes exactly k, removes two nodes exactly when k was present, and leaves the tree alone otherwise |
| TreeMap.TreeMap.Remove | src/tree/Treap.java:68-88 | remove, including the treap's rotate-down override: deletes exactly k and returns its value; an absent key changes nothing; heap order is kept |
| TreeMap.TreeMap.FirstEntry | src/tree/TreeMap.java:264-267 | the entry with the least key, or null on an empty map |
| TreeMap.TreeMap.LastEntry | src/tree/TreeMap.java:275-278 | the entry with the greatest key, or null on an empty map |
| TreeMap.TreeMap.CeilingEntry | src/tree/TreeMap.java:289-301 | equals the least entry with key >= k, or null |
| TreeMap.TreeMap.FloorEntry | src/tree/TreeMap.java:312-324 | equals the greatest entry with key <= k, or null |
| TreeMap.TreeMap.LowerEntry | src/tree/TreeMap.java:335-352 | equals the greatest entry with key < k, or null |
| TreeMap.TreeMap.HigherEntry | src/tree/TreeMap.java:363-381 | equals the least entry with key > k, or null |
| TreeMap.TreeMap.EntrySet | src/tree/TreeMap.java:391-399 | all entries in increasing key order |
| TreeMap.TreeMap.SubMap | src/tree/TreeMap.java:428-434 | exactly the entries with from <= key < to, in increasing key order |
| AVLTreeMap.StoredHeight | src/tree/AVLTreeMap.java:45-47 | in an AVL subtree the stored aux value is the true height |
| AVLTreeMap.RecomputeFacts | src/tree/AVLTreeMap.java:52-54 | recomputeHeight sets p's aux to 1 + the larger child aux, changes nothing else, and makes p an AVL node when its children are balanced AVL trees |
| AVLTreeMap.IsBalanced | src/tree/AVLTreeMap.java:57-59 | over AVL children, balanced exactly when the child heights differ by at most 1 |
| AVLTreeMap.TallerChild | src/tree/AVLTreeMap.java:62-69 | returns a child of p at least as tall as its sibling; on a tie, the left child at the root, otherwise the child on p's own side |
| AVLTreeMap.UnbalancedRound | src/tree/AVLTreeMap.java:80-85 | at an unbalanced node, restructuring the taller grandchild yields a subtree that, with heights recomputed, is an AVL tree of the same entries |
| AVLTreeMap.BalancedRound | src/tree/AVLTreeMap.java:87 | at a balanced node, recomputing the height fixes that node |
| AVLTreeMap.Rebalance | src/tree/AVLTreeMap.java:76-91 | the walk toward the root leaves an AVL tree with the same entries and node count |
| AVLTreeMap.RebalanceInsert | src/tree/AVLTreeMap.java:95-97 | after a new leaf is expanded in an AVL tree, rebalancing leaves an AVL tree with the same entries |
| AVLTreeMap.RebalanceDelete | src/tree/AVLTreeMap.java:101-104 | after a node is spliced out of an AVL tree, rebalancing from the promoted child leaves an AVL tree with the same entries; when the promoted child is the root the tree is left as it is |
| Treap.SetPriorityFacts | src/tree/Treap.java:46-48 | after setPriority, getPriority (TreapBinaryTree.java lines 16-19) on that node returns the value set, every other node keeps its priority, and the entries are unchanged |
| Treap.InsertHeapExcept | src/tree/TreapBinaryTree.java:12-14 | a new node with priority 0 breaks heap order at most at its own position |
| Treap.BubbleUp | src/tree/Treap.java:90-95 | rotates the node up until it is the root or its parent's priority is at least its own; it keeps the entries, and turns a tree with the node as its only heap violation into a heap |
| Treap.RotateDown | src/tree/Treap.java:72-84 | rotates the node down, lifting the child of higher priority (left on ties), until both its children are sentinels; it keeps the entries, and cutting the node off then leaves a heap |
| Treap.HeapDownRemove | src/tree/Treap.java:85 | a node that has sunk to the bottom can be removed without breaking heap order |
| Treap.BstIsValidBst | src/tree/Treap.java:98-110 | every search tree passes isValidBST |
| Treap.LocalCheckAcceptsNonBst | src/tree/Treap.java:98-110 | isValidBST accepts a tree that is not a search tree |
| Treap.BoundedMeaning | src/tree/Treap.java:98-110 | the bounded check holds exactly for search trees whose keys lie within the bounds |
| Treap.IsValidBstCorrectedMeaning | src/tree/Treap.java:98-110 | the corrected check holds exactly for search trees |
| Treap.HeapViolations | src/tree/Treap.java:114-135 | every violation reported has a parent priority below its child's |
| Treap.HeapViolationsMeaning | src/tree/Treap.java:114-135 | isValidHeapSubtree reports nothing exactly when the subtree is heap-ordered |
| Treap.CopySubtreeMeaning | src/tree/Treap.java:161-187 | copySubtree throws IllegalStateException exactly when a source child is internal and the destination's slot on that side is taken; a taken left slot throws before anything changes, a taken right slot throws after the left copy was attached and counted; otherwise both copies are attached and the size grows by the entries copied |
| Treap.CopyIntoTreapNode | src/tree/Treap.java:161-187 | copying into a node of a treap fails as soon as the source has an internal child, before anything is added, because sentinels fill the slots |
| TreapSort.Sort | src/tree/Treap.java:191-205 | treapSort returns the distinct input values in strictly increasing order |
| TreapSort.KeysInOrder | src/tree/Treap.java:200-204 | reading the keys of the ordered entries gives a strictly increasing sequence of exactly the input values |
| SinglyLinkedList.SinglyLinkedList.constructor | src/list/SinglyLinkedList.java:47 | a new list is empty with a null tail |
| SinglyLinkedList.SinglyLinkedList.Size | src/list/SinglyLinkedList.java:50-52 | size() is the number of elements on the chain from head |
| SinglyLinkedList.SinglyLinkedList.IsEmpty | src/list/SinglyLinkedList.java:55-57 | empty exactly when there are no elements |
| SinglyLinkedList.SinglyLinkedList.Get | src/list/SinglyLinkedList.java:60-66 | get(i) is the i-th element from head; a negative index gives the first element, and an index past the end throws NullPointerException |
| SinglyLinkedList.SinglyLinkedList.Add | src/list/SinglyLinkedList.java:69-85 | e ends up at index position (index 1 for a negative position), later elements shift by one, and tail moves only for an insertion at the end; a position past the end throws NullPointerException |
| SinglyLinkedList.SinglyLinkedList.LinkAfter | src/list/SinglyLinkedList.java:80-82 | linking after the node at index at-1 inserts e at index at and moves tail only for an insertion at the end |
| SinglyLinkedList.SinglyLinkedList.AddFirst | src/list/SinglyLinkedList.java:89-93 | e becomes the element at index 0; tail is not updated |
| SinglyLinkedList.SinglyLinkedList.AddLast | src/list/SinglyLinkedList.java:96-109 | e is appended after the last reachable node; tail is not updated |
| SinglyLinkedList.SinglyLinkedList.Remove | src/list/SinglyLinkedList.java:112-123 | returns the element at that index (index 1 for a negative position) and removes exactly it; position 0 delegates to removeFirst, so it returns null and changes nothing on an empty list and sets tail to null when the list empties; a position past the end throws NullPointerException |
| SinglyLinkedList.SinglyLinkedList.UnlinkAfter | src/list/SinglyLinkedList.java:118-122 | unlinking after index del-1 removes and returns element del, and moves tail back when it named the removed node |
| SinglyLinkedList.SinglyLinkedList.RemoveFirst | src/list/SinglyLinkedList.java:126-135 | null and no change on an empty list; otherwise returns and drops the first element, and clears tail when the list empties |
| SinglyLinkedList.SinglyLinkedList.RemoveLast | src/list/SinglyLinkedList.java:138-151 | drops the last element but returns the element of the node tail named; with a null tail and two or more elements it throws NullPointerException |
| SinglyLinkedList.SinglyLinkedList.Reverse | src/list/SinglyLinkedList.java:186-200 | the chain from head holds the old elements in reverse order; tail is unchanged |
| SinglyLinkedList.SinglyLinkedList.RecursiveCopy | src/list/SinglyLinkedList.java:202-207 | returns a fresh list (so later changes to the original do not reach it) with the same elements and a null tail |
| SinglyLinkedList.SinglyLinkedList.CopyFrom | src/list/SinglyLinkedList.java:209-216 | copies the rest of the chain from the k-th node into new nodes of the copy, in the same order |
| SinglyLinkedList.ReverseStep | src/list/SinglyLinkedList.java:191-198 | one turn of the loop turns one more link around |
| SinglyLinkedList.ReverseDone | src/list/SinglyLinkedList.java:199 | once every link is turned, the chain from the old last node holds the elements reversed |
| SinglyLinkedList.GatherReversed | src/list/SinglyLinkedList.java:186-200 | reading the elements along the reversed chain gives the reversed element sequence |
| SinglyLinkedList.StaleTailRemoveLast | src/list/SinglyLinkedList.java:138-151 | add(0, 1), addLast(2), removeLast() returns 1 and leaves [1] |
| SinglyLinkedList.RemoveLastCorrected | src/list/SinglyLinkedList.java:138-151 | removeLast as intended: returns the last element, drops it, and leaves tail on the new last node |
| SinglyLinkedList.CorrectedRemoveLast | src/list/SinglyLinkedList.java:138-151 | with the corrected removeLast, the same calls return 2 and leave [1] |
| DoublyLinkedList.DoublyLinkedList.constructor | src/list/DoublyLinkedList.java:28-32 | a new list is empty, with header.next = trailer and trailer.prev = header |
| DoublyLinkedList.DoublyLinkedList.Size | src/list/DoublyLinkedList.java:43-45 | size() is the number of elements between the sentinels |
| DoublyLinkedList.DoublyLinkedList.IsEmpty | src/list/DoublyLinkedList.java:48-50 | empty exactly when there are no elements |
| DoublyLinkedList.DoublyLinkedList.AddBetween | src/list/DoublyLinkedList.java:34-40 | e is linked between two neighbouring nodes, at index j; the links stay mutually consistent |
| DoublyLinkedList.DoublyLinkedList.RemoveNode | src/list/DoublyLinkedList.java:108-115 | returns the node's element and removes exactly it; its neighbours are linked to each other |
| DoublyLinkedList.DoublyLinkedList.NodeAt | src/list/DoublyLinkedList.java:55-59 | walking position steps from the first node reaches the node at that index |
| DoublyLinkedList.DoublyLinkedList.Get | src/list/DoublyLinkedList.java:53-60 | the element at the index, or IndexOutOfBoundsException outside [0, size) |
| DoublyLinkedList.DoublyLinkedList.Add | src/list/DoublyLinkedList.java:63-74 | e ends up at the index and later elements shift; IndexOutOfBoundsException and no change outside [0, size] |
| DoublyLinkedList.DoublyLinkedList.Remove | src/list/DoublyLinkedList.java:77-84 | returns and removes the element at the index; IndexOutOfBoundsException and no change outside [0, size) |
| DoublyLinkedList.DoublyLinkedList.First | src/list/DoublyLinkedList.java:117-120 | the first element, or null when empty |
| DoublyLinkedList.DoublyLinkedList.Last | src/list/DoublyLinkedList.java:122-125 | the last element, or null when empty |
| DoublyLinkedList.DoublyLinkedList.RemoveFirst | src/list/DoublyLinkedList.java:128-131 | null and no change when empty; otherwise returns and removes the first element |
| DoublyLinkedList.DoublyLinkedList.RemoveLast | src/list/DoublyLinkedList.java:134-137 | null and no change when empty; otherwise returns and removes the last element |
| DoublyLinkedList.DoublyLinkedList.AddLast | src/list/DoublyLinkedList.java:140-142 | e becomes the last element |
| DoublyLinkedList.DoublyLinkedList.AddFirst | src/list/DoublyLinkedList.java:145-147 | e becomes the first element |
| DoublyLinkedList.DoublyLinkedList.Relink | src/list/DoublyLinkedList.java:164-174 | the loop swaps every element node's prev and next, with the first node's next turned to null |
| DoublyLinkedList.DoublyLinkedList.ReverseInplace | src/list/DoublyLinkedList.java:161-186 | does nothing for size <= 1; for size >= 2 it swaps the sentinels, relinks every node, and then throws NullPointerException, leaving no prev/next chain from the new header to the new trailer |
| DoublyLinkedList.ReverseOfTwoThrows | src/list/DoublyLinkedList.java:161-186 | reversing a two-element list throws NullPointerException |
| DoublyLinkedList.DoublyLinkedList.ReverseInplaceCorrected | src/list/DoublyLinkedList.java:161-186 | reverseInplace as intended: a well-formed list holding the old elements in reverse order |
| DoublyLinkedList.ReverseOfTwoCorrected | src/list/DoublyLinkedList.java:161-186 | the corrected reversal of [1, 2] gives first 2 and last 1 |
| DoublyLinkedList.WfInsert | src/list/DoublyLinkedList.java:34-40 | inserting a node between neighbours keeps prev and next mutually consistent |
| DoublyLinkedList.WfRemove | src/list/DoublyLinkedList.java:108-115 | unlinking a node keeps prev and next mutually consistent |
| DoublyLinkedList.ValuesDrop | src/list/DoublyLinkedList.java:108-115 | dropping the j-th node drops exactly the j-th element |
| DoublyLinkedList.ReversalWf | src/list/DoublyLinkedList.java:161-186 | once every node is relinked, attaching the swapped sentinels gives a well-formed list in reverse order |
| MergeSort.MergeSort | src/utils/MergeSort.java:7-15 | the result is sorted and a permutation of the input; an input of length <= 1 is returned as the same array, and any longer input gets a fresh array, so the input is never written |
| MergeSort.Merge | src/utils/MergeSort.java:17-34 | the fresh result is the stable merge of the two arrays, taking from the left on equal keys |
| MergeSort.CopyOfRange | src/utils/MergeSort.java:12-13 | the copy is a fresh array holding exactly a[lo..hi] |
| MergeSort.CopyRest | src/utils/MergeSort.java:27-32 | a drain loop copies the rest of one array into the result's next slots |
| MergeSort.MergeSeqPermutation | src/utils/MergeSort.java:17-34 | the merge has the length of both inputs together and the multiset union of their elements |
| MergeSort.MergeSeqSorted | src/utils/MergeSort.java:17-34 | merging two sorted sequences gives a sorted sequence |
| MergeSort.MergeSeqLowerBound | src/utils/MergeSort.java:17-34 | a lower bound of both inputs bounds the merge |
| MergeSort.TakeLeft | src/utils/MergeSort.java:21-22 | when left[i] <= right[j], the next output is left[i] |
| MergeSort.TakeRight | src/utils/MergeSort.java:23-24 | when left[i] > right[j], the next output is right[j] |
| MergeSort.Drain | src/utils/MergeSort.java:27-32 | once one side is exhausted, the rest of the output is the rest of the other side |
| FibonacciRecursive.FibonacciIsFib | src/recursion/FibonacciRecursive.java:4-9 | returns n for n <= 1 (negatives included) and the n-th Fibonacci number for n >= 0 |
| FibonacciRecursive.FibonacciFitsInt | src/recursion/FibonacciRecursive.java:4-9 | up to n = 46 the result fits in a Java int |
| FibonacciRecursive.FibMonotone | src/recursion/FibonacciRecursive.java:4-9 | the Fibonacci numbers do not decrease |
| FibonacciRecursive.FibAt46 | src/recursion/FibonacciRecursive.java:4-9 | fibonacci(46) = 1836311903, the largest that fits in an int |
| FibonacciMemoization.FibonacciMemoization.constructor | src/recursion/FibonacciMemoization.java:6 | the memo table starts empty |
| FibonacciMemoization.FibonacciMemoization.Fibonacci | src/recursion/FibonacciMemoization.java:8-18 | returns the n-th Fibonacci number (n itself for n <= 1), agreeing with the plain recursion; memo only grows, only by keys in [2, n], every entry is a Fibonacci number, and it holds n afterwards |
| Tribonacci.Tribonacci | src/recursion/Tribonacci.java:4-12 | the result is never negative, and at least 1 from n = 2 on |
| Tribonacci.TribonacciOfEightAndNine | src/recursion/Tribonacci.java:15 | tribonacci(8) = 24 and tribonacci(9) = 44 |
| Tribonacci.TribonacciMonotone | src/recursion/Tribonacci.java:4-12 | from n = 2 on the values do not decrease |
| Tribonacci.TribonacciFitsInt | src/recursion/Tribonacci.java:4-12 | up to n = 38 the result fits in a Java int |
| Tribonacci.TribonacciAtMax | src/recursion/Tribonacci.java:4-12 | tribonacci(38) = 2082876103 |
| McCarthy91.M | src/recursion/McCarthy91.java:4-9 | n - 10 for n > 100, 91 otherwise, so never below 91; the recursion terminates |
| BinaryConverter.JavaHalf | src/recursion/BinaryConverter.java:8 | x / 2 truncates toward zero |
| BinaryConverter.JavaParity | src/recursion/BinaryConverter.java:9 | x % 2 takes the sign of x, and x = 2 * (x / 2) + x % 2 |
| BinaryConverter.FooRoundTrip | src/recursion/BinaryConverter.java:4-10 | reading the printed digits in base 2 gives back x, for every int |
| BinaryConverter.FooBinaryDigits | src/recursion/BinaryConverter.java:4-10 | for x > 0 every digit is 0 or 1 and the first is 1 |
| BinaryConverter.FooLength | src/recursion/BinaryConverter.java:4-10 | for x > 0 the number of digits d satisfies 2^(d-1) <= x < 2^d |
| BinaryConverter.FooNegativeDigits | src/recursion/BinaryConverter.java:4-10 | for x < 0 every digit is 0 or -1 and the first is -1 |
| Sequences.Reversed | src/list/SinglyLinkedList.java:186-200 | the reversal has the same length and reads the sequence from the back |

## Left out

- Iterators, `toString`, `toBinaryTreeString`, the `main` methods and console printing. These are output formatting and have no state worth proving.
- `LinkedBinaryTree.makeRandom`/`randomTree`: they are driven by `java.util.Random`.
- `LinkedBinaryTree.positions`, `heightBad`, the empty `constructTree` stubs and the `createLevelOrder(ArrayList)` overload: they are unused, empty, or (the overload) a variant that swaps children.
- `LinkedBinaryTree.validate`: a position is a path, and validity is a precondition of each operation. In `LinkedBinaryTree` only `setRoot` calls `validate`, so its `IllegalArgumentException` is not modelled; `remove` never marks a node defunct, so the defunct check could not fire for removed nodes anyway.
- `TreeMap.loadFactor`/`numCollisions` are stubs. `rebalanceAccess` does nothing in every class.
- The comparator constructors: keys are `int` with their natural order, and values are generic.
- `TreapBinaryTree.getPriority` validation: a path can never name a non-node. `BSTTreapNode` itself is the `priority` field of `Node`.
- `Treap.isValidTreap`/`isValidHeap` only print; the check they wrap is `HeapViolations`.
- Randomness: `Treap.put` takes its priority as the `draw` parameter (0 to 999). `TreapSort.Sort` takes one draw per input.
- `src/tree/BalanceableBinaryTree.java` is not part of this model. `rotate`, `restructure` and the aux slot are defined here from their use in `TreeMap`, `AVLTreeMap` and `Treap`.
- The rest of the repository is not part of this model: the benchmark programs `TreeTimer` and `TreeSorting`, `SortBenchmarkResult`, `ChainHashMap` and the JUnit class `TreapTest`.
- The tree map is a datatype value held in a class field, not a graph of node objects. Node identity, parent links and aliasing between positions are therefore not modelled; positions are root paths.
- Both lists keep their nodes in sequences indexed by node number, not as separate objects.
- DoublyLinkedList: elements are never null in the model; Java allows null elements, which would make `first()`'s null result ambiguous.
- FibonacciRecursive.Fibonacci: results are mathematical integers; the requires `n <= 46` stands in for Java `int` wrap-around.
- FibonacciMemoization.FibonacciMemoization.Fibonacci: requires `n <= 92` instead of modelling Java `long` wrap-around. The static map is a field of one object.
- Tribonacci.Tribonacci: requires `n <= 38` instead of modelling Java `int` wrap-around.
- MergeSort.MergeSort: the input may be any `int` array; Java's `Integer[]` could hold nulls, which would throw.
- LinkedNodes.ConstructScan and LinkedNodes.Build: the root value is looked up in the in-order range by value equality; `construct_tree` compares with `==`, which on boxed elements compares references and agrees with value equality only for values Java caches (small `Integer`s).
- Treap.CopySubtree: the destination is a tree whose nodes carry a priority, as a `TreapBinaryTree` makes them. With any other destination tree the casts at Treap.java lines 174 and 184 throw `ClassCastException` after the node was added; that path is not modelled. An invalid destination position, which `validate` rejects, is not modelled either.
- LinkedBinaryTree.LinkedBinaryTree.CreateLevelOrder and LinkedBinaryTree.LinkedBinaryTree.Construct: `createLevelOrder` passes the old root as the parent of the new root (LinkedBinaryTree.java:695), so on a non-empty tree `sibling(root())` afterwards returns a node of the discarded tree or null; positions are paths, so that stale parent link is not modelled. Both operations add the nodes they create to `size` without resetting it, as Java does, so on a non-empty tree, or when `construct_tree` throws after creating nodes, `size` no longer equals the node count. Every other tree operation is modelled only for trees where `size` equals the node count (`Valid`); what Java does after such a drift (`isEmpty` false with a null root, `addRoot` throwing, `inorder` dereferencing a null root) is not modelled.
- McCarthy91.M: the nested recursion is about (101 - n)/11 calls deep, so for very negative n (roughly below -100000) Java throws `StackOverflowError`; the model has no call-stack bound and returns 91 for every n <= 100.
- LinkedBinaryTree.LinkedBinaryTree.Sibling and the other position operations (`children`, `numChildren`, `isRoot`, `isInternal`, `isExternal`, `depth`, `height`, `set`, `addLeft`, `addRight`, `remove`): Java does not validate the position in these methods. The model requires a position present in the tree; what Java does with a stale or foreign position (it follows the stale links, or throws `ClassCastException` on a position that is not a `Node`) is not modelled.

## Findings

| source | as written | input that shows it | evidently intended | confidence | as-written member | corrected member |
|---|---|---|---|---|---|---|
| src/list/SinglyLinkedList.java:138-151 | `removeLast` returns `tail.getElement()`, but `addFirst`/`addLast`/`reverse` never update `tail` | `add(0, 1)`, `addLast(2)`, `removeLast()` returns 1 while unlinking 2 | return the element of the node actually unlinked, the last one | high, not executed | SinglyLinkedList.StaleTailRemoveLast | SinglyLinkedList.RemoveLastCorrected |
| src/list/DoublyLinkedList.java:161-186 | after relinking, `tail.getPrev().setNext(tail)` reads the old header's `prev`, which is null | `addLast(1)`, `addLast(2)`, `reverseInplace()` throws NullPointerException | the list holds its elements in reverse order | high, not executed | DoublyLinkedList.ReverseOfTwoThrows | DoublyLinkedList.DoublyLinkedList.ReverseInplaceCorrected |
| src/tree/Treap.java:98-110 | `isValidBST` compares each node only with its internal children | root 3 with left child 1 whose right child is 5 passes the check | the check holds exactly for binary search trees | high, not executed | Treap.LocalCheckAcceptsNonBst | Treap.IsValidBstCorrectedMeaning |
| src/tree/Treap.java:54-60 | `put` on a present key draws a new priority and only bubbles the node up | keys 1 (priority 500) over 2 (priority 100); putting 1 again with draw 50 leaves 1 above a child of higher priority | heap order holds after every put | medium, not executed | TreeMap.ReputBreaksHeap | TreeMap.TreeMap.PutCorrected |

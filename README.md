# Red-black tree of strings, with its node record and queue

A model of the red-black tree of the spell checker project
(`src/redblacktreeproject`). The tree stores strings ordered by Java's
`String.compareTo`. It has one shared black sentinel, `leaf`, whose data is
"-1"; it serves as every missing child and as the root's parent, and its own
children are null.

`insert` walks down to a sentinel slot, links a red node there (except
for a key equal to the last node visited, see Findings) and runs
`RBInsertFixup`. The fixup recolours and rotates with `leftRotate` and
`rightRotate`, exactly as Cormen et al., section 13.3, describe.

The queries are:
- `contains`, which counts the nodes it compares with in `recentCompares`;
- `closeBy`;
- `height`;
- `getSize`;
- an in-order traversal and a level-order traversal. The level-order walk
  uses the fixed-size circular `Queue`.

The model is layered:

- **Nodes**: `RedBlackNode` as a class with its five fields, its getters,
  setters and `toString`, plus the colour codes.
- **JavaStrings**: `compareTo` and the total order it induces.
- **Trees, Balance, InsertFixup, Insertion, Search, Traversals**: the tree as
  a value. Each Java operation is a function here, and the properties the
  source promises are lemmas about those functions:
  - the red-black properties are restored by the fixup and kept by `insert`;
  - the in-order keys stay sorted, and fresh keys are added at their sorted
    place;
  - rotations keep the in-order keys and the node set;
  - `contains` succeeds exactly on stored keys;
  - `closeBy` returns a key adjacent to the probe;
  - height and search length are bounded by 2 log2(n + 1);
  - level order visits every key once.
- **Arena**: the Java object graph as a sequence of node records indexed
  like the objects. Index 0 is the sentinel, and `NULL` (-1) is Java's null.
  `Represents` ties the records to the value tree.
- **RedBlackTrees**: the `RedBlackTree` class. Its fields are the records,
  the root index and the two counters, and its methods follow the Java
  statements one by one. Each method is proved to refine the value-level
  function: the records it leaves represent the tree that function computes.
- **Queues**: the circular buffer as a class over an array.

## Model

| member | source | states |
|---|---|---|
| Nodes.ColorName | src/redblacktreeproject/RedBlackNode.java:151 | the colour text is "Black" exactly for the BLACK code and "Red" for every other code |
| Nodes.ColorsDistinct | src/redblacktreeproject/RedBlackNode.java:13-17 | BLACK (0) and RED (1) are different codes, printed differently |
| Nodes.RedBlackNode.constructor | src/redblacktreeproject/RedBlackNode.java:33-39 | the five fields take the five arguments |
| Nodes.RedBlackNode.GetColor | src/redblacktreeproject/RedBlackNode.java:47-49 | returns the colour field |
| Nodes.RedBlackNode.GetData | src/redblacktreeproject/RedBlackNode.java:57-59 | returns the data field |
| Nodes.RedBlackNode.GetLc | src/redblacktreeproject/RedBlackNode.java:67-69 | returns the left link |
| Nodes.RedBlackNode.GetRc | src/redblacktreeproject/RedBlackNode.java:77-79 | returns the right link |
| Nodes.RedBlackNode.GetP | src/redblacktreeproject/RedBlackNode.java:87-89 | returns the parent link |
| Nodes.RedBlackNode.SetData | src/redblacktreeproject/RedBlackNode.java:97-99 | changes the data and leaves the other four fields as they were |
| Nodes.RedBlackNode.SetColor | src/redblacktreeproject/RedBlackNode.java:107-109 | changes the colour and leaves the other four fields as they were |
| Nodes.RedBlackNode.SetLc | src/redblacktreeproject/RedBlackNode.java:117-119 | changes the left link and leaves the other four fields as they were |
| Nodes.RedBlackNode.SetRc | src/redblacktreeproject/RedBlackNode.java:127-129 | changes the right link and leaves the other four fields as they were |
| Nodes.RedBlackNode.SetP | src/redblacktreeproject/RedBlackNode.java:137-139 | changes the parent link and leaves the other four fields as they were |
| Nodes.RedBlackNode.ToString | src/redblacktreeproject/RedBlackNode.java:148-156 | the exact text Java builds, with the linked nodes' data; None exactly when a link is null, where Java throws |
| JavaStrings.CompareToZero | src/redblacktreeproject/RedBlackTree.java:310 | compareTo reports 0 exactly for equal strings |
| JavaStrings.CompareToAntisymmetric | src/redblacktreeproject/RedBlackTree.java:112 | swapping the operands of compareTo negates the result |
| JavaStrings.LessTransitive | src/redblacktreeproject/RedBlackTree.java:102 | the strict compareTo order is transitive |
| JavaStrings.LessEqTransitive | src/redblacktreeproject/RedBlackTree.java:102 | the non-strict compareTo order is transitive |
| JavaStrings.Trichotomy | src/redblacktreeproject/RedBlackTree.java:310-319 | any two strings are less, equal or greater, exactly one of them |
| Trees.RotateKeepsInOrder | src/redblacktreeproject/RedBlackTree.java:154-213 | a rotation keeps the in-order sequence of the subtree it acts on |
| Trees.RotateAtKeeps | src/redblacktreeproject/RedBlackTree.java:154-213 | rotating anywhere in the tree keeps its in-order keys, its node set and the uniqueness of its nodes |
| Trees.RecolorAtKeeps | src/redblacktreeproject/RedBlackTree.java:228-257 | recolouring a node keeps the in-order keys, the node set and the uniqueness of the nodes |
| Trees.SortedNode | src/redblacktreeproject/RedBlackTree.java:102-106 | the in-order keys are sorted exactly when both subtrees are sorted and the node's key lies between them |
| Balance.RedBlackDepthBound | src/redblacktreeproject/RedBlackTree.java:287-294 | in a red-black tree the depth is at most twice the black height and 2^bh <= n + 1, so depth <= 2 log2(n + 1) |
| InsertFixup.FixupStep | src/redblacktreeproject/RedBlackTree.java:225-257 | one loop pass leaves a tree where the loop can run again, with z strictly higher up |
| InsertFixup.StepMovesZ | src/redblacktreeproject/RedBlackTree.java:226-256 | with a red uncle z moves exactly to its grandparent; with a black uncle z ends one level below the old grandparent's place under a black parent, so the loop stops and an insert rotates at most twice |
| InsertFixup.Fixup | src/redblacktreeproject/RedBlackTree.java:222-260 | the loop ends, and the root it leaves is black |
| InsertFixup.StepKeepsInvariant | src/redblacktreeproject/RedBlackTree.java:225-257 | each pass keeps the invariant: the tree stays black-balanced, and the only red-red pair, if any, is z and its parent |
| InsertFixup.FixupRestoresRedBlack | src/redblacktreeproject/RedBlackTree.java:222-260 | from a freshly linked red node, the fixup returns a red-black tree |
| InsertFixup.FixupKeepsNodes | src/redblacktreeproject/RedBlackTree.java:222-260 | the fixup keeps the in-order keys, the node set and the uniqueness of the nodes |
| Insertion.DescentPath | src/redblacktreeproject/RedBlackTree.java:100-107 | the descent ends at a sentinel slot of the tree, and at the root slot exactly when the tree is empty |
| Insertion.DescentSides | src/redblacktreeproject/RedBlackTree.java:100-107 | the descent's slot splits the sorted keys into those not greater than v and those greater |
| Insertion.LinkMatchesDescent | src/redblacktreeproject/RedBlackTree.java:108-117 | the link step takes the descent's slot unless the last node visited holds v; then it takes that node's left link |
| Insertion.LinkSides | src/redblacktreeproject/RedBlackTree.java:108-117 | the link slot still splits the sorted keys into those not greater than v and those not smaller, duplicates included |
| Insertion.InsertKeepsRedBlack | src/redblacktreeproject/RedBlackTree.java:95-121 | `insert` keeps a red-black tree red-black for every value |
| Insertion.InsertKeepsSorted | src/redblacktreeproject/RedBlackTree.java:95-121 | `insert` keeps the in-order keys sorted for every value |
| Insertion.InsertFreshInOrder | src/redblacktreeproject/RedBlackTree.java:95-121 | a value not yet stored goes into the in-order keys at its sorted place |
| Insertion.InsertFreshNodes | src/redblacktreeproject/RedBlackTree.java:95-121 | a value not yet stored adds exactly the new node to the node set |
| Insertion.InsertKeepsUniqueIds | src/redblacktreeproject/RedBlackTree.java:95-121 | for every value the nodes stay distinct, and the new node is among them |
| Insertion.DuplicateInsertLosesKey | src/redblacktreeproject/RedBlackTree.java:102-116 | inserting "b", "a", "b" leaves in-order keys ["b", "b"]: the key "a" is lost |
| Insertion.InsertFixedInOrder | src/redblacktreeproject/RedBlackTree.java:95-121 | with the link step taking the descent's slot, `insert` places every value, duplicates included, at its sorted place |
| Insertion.InsertFixedKeepsRedBlack | src/redblacktreeproject/RedBlackTree.java:95-121 | the corrected `insert` keeps the red-black properties |
| Search.SearchPathInTree | src/redblacktreeproject/RedBlackTree.java:305-323 | the search visits stored keys only, and visits none exactly when the tree is empty |
| Search.SearchEndsAtMatch | src/redblacktreeproject/RedBlackTree.java:310-312 | the search meets v exactly when it stops at a node holding v |
| Search.SearchFindsMembers | src/redblacktreeproject/RedBlackTree.java:305-323 | in a sorted tree the search meets v exactly when v is stored |
| Search.SearchEndsNextToValue | src/redblacktreeproject/RedBlackTree.java:333-361 | in a sorted non-empty tree the search ends at a stored key, with no stored key strictly between it and v |
| Traversals.BfsVisitsAll | src/redblacktreeproject/RedBlackTree.java:133-143 | the walk from a queue of subtrees visits every key in them exactly as often as it occurs |
| Traversals.LevelOrderIsPermutation | src/redblacktreeproject/RedBlackTree.java:127-145 | level order is a permutation of the in-order keys, one entry per node |
| Traversals.LevelOrderStartsAtRoot | src/redblacktreeproject/RedBlackTree.java:132-135 | level order starts with the root's key |
| Traversals.Offer | src/redblacktreeproject/RedBlackTree.java:137-142 | enqueueing adds a real child at the back unless the queue is full, and never adds the sentinel |
| Traversals.BoundedBfsAgrees | src/redblacktreeproject/RedBlackTree.java:133-143 | while the nodes still to visit fit in the queue, no child is refused and the walk is breadth-first |
| Traversals.BoundedLevelOrderAgrees | src/redblacktreeproject/RedBlackTree.java:127-145 | a tree with no more nodes than the queue has slots is printed in level order |
| Arena.RecolorRefines | src/redblacktreeproject/RedBlackTree.java:228-257 | a `setColor` on the record of a node represents recolouring that node in the tree |
| Arena.RotatedShape | src/redblacktreeproject/RedBlackTree.java:154-213 | the statements of a rotation write exactly the records of x, its child y, y's inner child and x's parent |
| Arena.RotateRefines | src/redblacktreeproject/RedBlackTree.java:154-213 | `leftRotate`/`rightRotate` on a node's record represent the rotation of that node's subtree |
| RedBlackTrees.CompareCountBound | src/redblacktreeproject/RedBlackTree.java:305-323 | a search in a red-black tree of n nodes visits at most 2 bh nodes with 2^bh <= n + 1, that is at most 2 log2(n + 1) nodes, so `contains` makes at most 2 log2(n + 1) + 1 compares |
| RedBlackTrees.SampleRun | src/redblacktreeproject/RedBlackTree.java:368-390 | inserting "1" to "5": in-order 1 to 5, level order 2 1 4 3 5, "3" found on the path 2 4 3, height 2, and the searches that `closeBy` makes for "6" and "0" end at "5" and "1" |
| RedBlackTrees.SampleInsert3 | src/redblacktreeproject/RedBlackTree.java:241-257 | the third insert of the driver takes the outer case and rotates left at the root |
| RedBlackTrees.SampleInsert4 | src/redblacktreeproject/RedBlackTree.java:231-235 | the fourth insert of the driver takes the red-uncle case and recolours |
| RedBlackTrees.SampleInsert5 | src/redblacktreeproject/RedBlackTree.java:241-257 | the fifth insert of the driver takes the outer case below the root |
| RedBlackTrees.RedBlackTree.constructor | src/redblacktreeproject/RedBlackTree.java:18-23 | the sentinel alone is root and leaf, both counters are 0, and the tree is empty |
| RedBlackTrees.RedBlackTree.Descend | src/redblacktreeproject/RedBlackTree.java:99-107 | the loop ends at the last node the descent visits, and at the sentinel exactly for an empty tree |
| RedBlackTrees.RedBlackTree.Insert | src/redblacktreeproject/RedBlackTree.java:95-121 | the records now represent InsertTree of the old tree, with one record more, and still form a sorted red-black tree |
| RedBlackTrees.RedBlackTree.LeftRotate | src/redblacktreeproject/RedBlackTree.java:154-179 | the records and root become Rotated(.., L): one update per Java statement, with both early returns |
| RedBlackTrees.RedBlackTree.RightRotate | src/redblacktreeproject/RedBlackTree.java:188-213 | the mirror of LeftRotate, Rotated(.., R) |
| RedBlackTrees.RedBlackTree.RBInsertFixup | src/redblacktreeproject/RedBlackTree.java:222-260 | the records come to represent Fixup of the tree, with the same records |
| RedBlackTrees.RedBlackTree.CheckForData | src/redblacktreeproject/RedBlackTree.java:305-323 | found exactly when v is on the search path; the counter grows by one per call, the final call on the sentinel included |
| RedBlackTrees.RedBlackTree.Contains | src/redblacktreeproject/RedBlackTree.java:45-48 | found exactly when v is stored; the counter is reset, then set to the search length, plus one on a miss |
| RedBlackTrees.RedBlackTree.GetRecentCompares | src/redblacktreeproject/RedBlackTree.java:56-58 | returns the counter |
| RedBlackTrees.RedBlackTree.GetSize | src/redblacktreeproject/RedBlackTree.java:66-68 | always 0, because `numberOfNodes` is never written after the constructor |
| RedBlackTrees.RedBlackTree.CountNodes | src/redblacktreeproject/RedBlackTree.java:60-68 | the number of values inserted, which the documentation of `getSize` promises: the length of the in-order keys, the size of the tree |
| RedBlackTrees.RedBlackTree.GetCloseNode | src/redblacktreeproject/RedBlackTree.java:333-361 | None on the sentinel; otherwise the last key of the search path |
| RedBlackTrees.RedBlackTree.CloseBy | src/redblacktreeproject/RedBlackTree.java:33-35 | None exactly for an empty tree; v itself when stored; otherwise a stored key with no stored key strictly between it and v |
| RedBlackTrees.RedBlackTree.HeightFrom | src/redblacktreeproject/RedBlackTree.java:287-294 | 0 for the sentinel, otherwise the number of edges on the longest downward path |
| RedBlackTrees.RedBlackTree.Height | src/redblacktreeproject/RedBlackTree.java:76-78 | the depth minus one (0 when empty); for a red-black tree h <= 2 bh with 2^bh <= n + 1, and for a non-empty one h < 2 bh, so h < 2 log2(n + 1) |
| RedBlackTrees.RedBlackTree.InOrderFrom | src/redblacktreeproject/RedBlackTree.java:269-277 | left subtree, node, right subtree: the in-order keys of the subtree |
| RedBlackTrees.RedBlackTree.InOrderTraversal | src/redblacktreeproject/RedBlackTree.java:85-87 | None exactly for the empty tree, where Java follows the sentinel's null child; otherwise the sorted in-order keys, one per node |
| RedBlackTrees.RedBlackTree.InOrderKeys | src/redblacktreeproject/RedBlackTree.java:85-87 | the sorted in-order keys, and nothing for an empty tree |
| RedBlackTrees.RedBlackTree.LevelOrderTraversal | src/redblacktreeproject/RedBlackTree.java:127-145 | the keys in the order printed: the walk with a CAPACITY-slot queue, where a refused child is dropped with its subtree; level order whenever the tree fits in the queue |
| Queues.Queue.constructor | src/redblacktreeproject/Queue.java:18-22 | an empty queue over a fresh array of N slots, front == rear == 0, flag set |
| Queues.Queue.IsEmpty | src/redblacktreeproject/Queue.java:104-106 | the flag is set exactly when nothing is queued |
| Queues.Queue.FullWhenIndicesMeet | src/redblacktreeproject/Queue.java:60-66 | the indices meet with the flag clear exactly when N elements are queued |
| Queues.Queue.CountFromIndices | src/redblacktreeproject/Queue.java:30-82 | the number queued is the distance from front forward to rear around the ring, or N when the indices meet with the flag clear |
| Queues.Queue.GetFront | src/redblacktreeproject/Queue.java:90-96 | None (Java's null) when empty, otherwise the front element |
| Queues.Queue.EnQueue | src/redblacktreeproject/Queue.java:60-82 | a full queue is unchanged; otherwise x joins at the back |
| Queues.Queue.DeQueue | src/redblacktreeproject/Queue.java:30-52 | None with no change when empty; otherwise the front element, which leaves the queue |

## Left out

- Printing. `System.out.println` of a node, `"Queue is full"` and
  `"Queue is already empty"` are not modelled. The traversals return the data of the
  nodes in the order they would be printed; `RedBlackNode.ToString` gives the
  text of one line.
- `Queue.toString` (Queue.java:115-134) and the two `main` methods. The
  tree's `main` is kept only as the worked example `SampleRun`.
- The spell checker (`SpellChecker.java`), which only calls the tree.
- Null arguments. A null value passed to `insert`, `contains` or `closeBy`
  makes Java throw; strings here are never null.
- `String.compareTo` compares UTF-16 code units. The model compares Dafny
  characters, which are Unicode scalar values. The two orders agree on
  characters below U+D800, and may differ for characters outside the Basic
  Multilingual Plane.
- Queues.Queue.constructor: Java always allocates 262143 slots; the model
  takes the length N as a parameter, and the tree passes CAPACITY = 262143.
- Nodes.RedBlackNode: this class stands alone. The tree keeps each
  RedBlackNode's five fields in a record of an arena, `Arena.NodeRecord`;
  the record's index plays the object reference, and -1 plays null. Aliasing
  of node objects is therefore not modelled: two variables refer to the same
  node exactly when they hold the same index.
- `recentCompares` and `numberOfNodes` are unbounded integers; Java's 32-bit
  wrap-around would need more than 2^31 compares in one search, which a tree
  in memory cannot cause.

## Findings

| source | as written | input that shows it | evidently intended | confidence | as-written member | corrected member |
|---|---|---|---|---|---|---|
| src/redblacktreeproject/RedBlackTree.java:102-116 | the descent sends a key equal to a node's key to the right, but the link step sends it to the left of the last node visited; when that node holds the key, the new node overwrites its left link and the left subtree is detached | `insert("b")`, `insert("a")`, `insert("b")`: the in-order keys become ["b", "b"] and "a" is lost | link the new node on the side the descent last took, so every inserted key is kept | high, not executed | Insertion.DuplicateInsertLosesKey | Insertion.InsertFixedInOrder |
| src/redblacktreeproject/RedBlackTree.java:13,22,66-68 | `numberOfNodes` is set to 0 in the constructor and never written again, so `getSize` returns 0 | `insert("1")` then `getSize()`: 0, while the tree holds one node (RedBlackTrees.SampleInsert1) | the number of values inserted, which the method's documentation promises (lines 60-65) | high, not executed | RedBlackTrees.RedBlackTree.GetSize | RedBlackTrees.RedBlackTree.CountNodes |
| src/redblacktreeproject/RedBlackTree.java:20,85-87,269-271 | on an empty tree `inOrderTraversal(root)` is called on the sentinel, whose left child is null rather than the sentinel, so the recursion is entered on null and throws a NullPointerException | `new RedBlackTree().inOrderTraversal()` | print nothing for an empty tree, as `levelOrderTraversal` does (lines 130-132) | high, not executed | RedBlackTrees.RedBlackTree.InOrderTraversal | RedBlackTrees.RedBlackTree.InOrderKeys |

`contains` counts one compare per call of `checkForData`, the final call on
the sentinel included when the value is missing. So `contains("3")` after
inserting "1" to "5" counts 3 compares: the root "2", then "4", then "3"
(RedBlackTrees.SampleRun, RedBlackTrees.RedBlackTree.Contains).

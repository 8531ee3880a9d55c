# Tree.java binary search tree, in Dafny

`Tree<E>` in Tree.java is an unbalanced binary search tree. Each `BinaryTreeNode`
holds a key, a left and a right child, and a link back to its parent. The
`Tree` object holds the root link and a name. It supports:

- insertion, where a smaller key goes left and an equal or larger key goes right, so duplicates are kept;
- an order-guided membership test (`contains`);
- an exhaustive preorder lookup (`getByKey`);
- in-place mirroring (`flip`);
- the in-order successor of a node;
- the number of nodes on a level;
- the number of subtrees that are strict binary search trees (`countBST`);
- rebalancing by re-inserting medians (`balanceTree`);
- three text views: `toString`, `inOrderToString` and `printAllPaths`.

The project has two layers.

- **Values.** `Trees.Tree = Leaf | Node(left, key, right)` is the shape the node graph spells. Keys are `int`. The queries that only walk the graph are functions on this value:
  - `contains`, `checkDepth`, `isBST`, `countBSTRec` (modules `Trees`, `Levels`, `EmbeddedBSTs`);
  - the successor helpers (module `Locations`);
  - the string builders (module `Text`).

  A node handle, as passed to `inOrderSuccessor` or returned by `getByKey`, is a location (`Locations.Loc`): the subtree rooted at the node, plus the path of steps from the root down to it. The parent chain the Java code climbs is that path. `Balancing` states `balanceTree` on values.
- **Heap.** Module `Linked` holds what Tree.java changes in place:
  - `BinaryTreeNode` is a class with `key`, `left`, `right` and `parent`, plus the ghost footprint `Repr` and the ghost value `Model`;
  - `Tree` is a class with `root` and `name`.

  The recursive `insert`, `flipNodeChildren`, `findInOrderRecNode`, `inOrderTraversalRec`, `balanceTree`, `makeStringRec` (with its indent loop) and the constructors (with their insertion loop) are methods. Each one is proved against the value-level function. `BinaryTreeNode.Valid()` requires every child's `parent` link to point at the node above it. So every method that keeps `Valid()` also keeps the parent links right.

For every query, the answer on a `Linked.Tree` object `T` is the value function applied to `T.Model()`.

Tree.java dereferences null in four places: `flip`, `printAllPaths` and `balanceTree` on an empty tree, and `inOrderSuccessor` of a node with no right child and no ancestor with a strictly greater key (in an insert-ordered tree, the last node). "## Left out" says, member by member, how the model treats each.

## Model

| member | source | states |
|---|---|---|
| Trees.InsertAddsKey | Tree.java:282-293 | inserting x adds exactly one copy of x to the multiset of keys and changes no other key |
| Trees.InsertKeepsOrdered | Tree.java:282-293 | insertion keeps the invariant left keys < node key <= right keys at every node |
| Trees.InsertAllAddsKeys | Tree.java:22-40 | inserting a list of keys one by one adds exactly the multiset of that list |
| Trees.InsertAllKeepsOrdered | Tree.java:22-40 | a tree built by the constructors' insertion loop keeps the order invariant |
| Trees.Contains | Tree.java:306-319 | `contains` answers true only for a key that occurs in the tree |
| Trees.ContainsExact | Tree.java:306-319 | on an ordered tree, `contains(x)` is true if and only if x is a key |
| Trees.InsertedKeysAreFound | Tree.java:306-319 | every key given to the constructor is found by `contains` |
| Trees.InOrderKeys | Tree.java:73-78 | the in-order listing holds exactly the keys of the tree, duplicates included |
| Trees.OrderedInOrderSorted | Tree.java:73-78 | the in-order listing of an ordered tree is non-decreasing |
| Trees.ConstructedInOrderSorted | Tree.java:22-40 | a constructed tree lists, in order, a non-decreasing permutation of the constructor's input |
| Trees.MirrorKeepsKeys | Tree.java:86-97 | mirroring keeps the multiset of keys and the height |
| Trees.MirrorInvolutive | Tree.java:83-97 | mirroring twice gives back the original tree |
| Trees.MirrorReversesInOrder | Tree.java:83-97 | mirroring reverses the in-order key sequence |
| Levels.CheckDepthCounts | Tree.java:143-154 | `checkDepth(node, org, cur, 0)` is the number of nodes org - cur levels below the node, or 0 when org < cur |
| Levels.NodesInLevelIsLevelCount | Tree.java:140-142 | `nodesInLevel(level)` is the number of nodes at depth `level` (root at 0), and 0 for a negative level |
| Levels.NodesInLevelBounds | Tree.java:140-154 | 0 for an empty tree, a negative level or a level at or past the height; 1 for level 0 of a non-empty tree |
| Levels.LevelsSumToSize | Tree.java:140-154 | the sum of `nodesInLevel` over levels 0 to height-1 is the node count |
| EmbeddedBSTs.IsBSTMeansStrictWithin | Tree.java:199-208 | `isBST(n, lo, hi)` holds if and only if n's subtree is a strict search tree whose keys all lie strictly inside (lo, hi), a null bound meaning no bound |
| EmbeddedBSTs.CountBST | Tree.java:184-197 | `countBSTRec` never exceeds the number of nodes |
| EmbeddedBSTs.StrictSearchTreeHasNoDuplicates | Tree.java:199-208 | a strict search tree holds every key once |
| EmbeddedBSTs.DuplicateKeyIsNeverCounted | Tree.java:203 | a subtree holding an equal key twice fails `isBST` for any bounds |
| EmbeddedBSTs.CountIsSizeIffBST | Tree.java:181-197 | `countBST` equals the node count if and only if the whole tree passes `isBST(root, null, null)`; it is 0 for an empty tree |
| EmbeddedBSTs.OrderedDistinctIsStrict | Tree.java:199-208 | an insert-ordered tree without duplicate keys is a strict search tree |
| EmbeddedBSTs.CountOfDistinctConstruction | Tree.java:181-197 | for distinct keys inserted by the constructor, `countBST` is the number of keys |
| Locations.Parent | Tree.java:326 | the parent handle is a node of the same tree, one step up the path, holding the key of the last ancestor; there is none exactly at the root |
| Locations.CheckNodeLocates | Tree.java:222-235 | `checkNode` answers null if and only if the key does not occur; otherwise it answers a node of the tree holding the key |
| Locations.CheckNodeIsFirstInPreorder | Tree.java:222-235 | the node `checkNode` answers is the first one in preorder (node, left subtree, right subtree) holding the key |
| Locations.GetByKeyIsFirstInPreorder | Tree.java:218-235 | `getByKey(k)` is null if and only if k is not in the preorder listing (so null on an empty tree); otherwise it is the first preorder position holding k |
| Locations.WhileNodeLessThanChild | Tree.java:114-120 | the node reached has no left child, lies in the same tree, and is reached from the start by left steps only |
| Locations.LeftmostIsFirstInOrder | Tree.java:114-120 | the node `whileNodeLessThanChild` reaches holds the first in-order key of the subtree it starts from |
| Locations.WhileNodeLessThan | Tree.java:107-113 | the climb answers the nearest node on the parent chain whose key is strictly greater than the given key; all nodes passed on the way hold smaller or equal keys; no answer means no node on the chain qualifies |
| Locations.SuccessorWithRightChild | Tree.java:122-127 | with a right child, the successor is the leftmost node of the right subtree: one right step then left steps, holding the first in-order key of that subtree |
| Locations.PlugInOrder | Tree.java:73-78 | the in-order listing of a tree is the keys listed before a subtree's position, then the subtree's listing, then the keys listed after it |
| Locations.InIndexHoldsKey | Tree.java:73-78 | a node's in-order position lies inside the listing of the whole tree and holds the node's key |
| Locations.InIndexIdentifies | Tree.java:73-78 | two nodes of one tree at the same in-order position are the same node |
| Locations.AncestorSides | Tree.java:282-293 | in an insert-ordered tree, an ancestor whose left subtree holds the node has a strictly greater key, and one whose right subtree holds it has a key at most the node's |
| Locations.SuccessorIsNextInOrder | Tree.java:99-132 | the successor is the node one in-order position further in the same tree, holding the next key of the listing; there is none exactly when the node is last. A node with a right child needs nothing more; otherwise the tree must be insert-ordered |
| Locations.SuccessorWithoutRightChild | Tree.java:122-132 | without a right child, the successor is the nearest proper ancestor with a strictly greater key, skipping smaller and equal ones; there is none exactly when every ancestor's key is at most the node's |
| Balancing.InsertMediansKeys | Tree.java:261-271 | `inOrderTraversalRec` adds exactly the keys of the list to the tree |
| Balancing.InsertMediansKeepsOrdered | Tree.java:261-271 | median re-insertion keeps the order invariant |
| Balancing.BalanceKeepsKeys | Tree.java:256-260 | balancing a non-empty tree keeps the multiset of keys |
| Balancing.BalanceKeepsInOrderOfOrdered | Tree.java:256-271 | on an insert-ordered tree, balancing leaves the in-order listing unchanged, duplicates included |
| Balancing.InsertMediansOfIncreasing | Tree.java:261-271 | from a strictly increasing list, median re-insertion into an empty tree builds the median-split shape |
| Balancing.BuildInOrder | Tree.java:261-271 | the median-split shape lists its list back in order |
| Balancing.BuildHeight | Tree.java:261-271 | the median-split shape of n keys has at most h levels when n < 2^h |
| Balancing.BalanceOfIncreasing | Tree.java:256-271 | for a strictly increasing in-order listing of n keys, the new root holds the element at index n/2, the in-order listing is unchanged, and the height is at most ceil(log2(n+1)) |
| Balancing.SortedListingIsUnique | Tree.java:240-255 | two non-decreasing listings of the same multiset of keys are equal |
| Text.IntToStringRoundTrip | Tree.java:58 | the decimal text of a key reads back as that key |
| Text.IntToStringIsPlain | Tree.java:77 | the decimal text of a key is non-empty and holds only digits and '-' |
| Text.FindInOrderRecListsInOrder | Tree.java:73-78 | `findInOrderRec` writes every key of the in-order listing, each followed by one space |
| Text.KeysLineInjective | Tree.java:73-78 | different key sequences give different lines |
| Text.InOrderToStringLists | Tree.java:70-72 | `inOrderToString` is the name, ": ", then the in-order keys; two trees give the same string exactly when their in-order listings agree |
| Text.IndentIsBlank | Tree.java:60-63 | the indent for depth d is 2d spaces |
| Text.MakeStringRecWritesRows | Tree.java:52-65 | `makeStringRec` writes one line per node, in the order of the reference row list |
| Text.RowsListReverseInOrder | Tree.java:64 | the lines list the keys right subtree first, that is, in reverse in-order |
| Text.RowsDepths | Tree.java:61-64 | each line's depth lies between the start depth and that depth plus the height |
| Text.RowsParents | Tree.java:53-59 | the top line names the given parent (or "no parent"); every deeper line names a parent key from the subtree |
| Text.LineHasOneBreak | Tree.java:64 | each node's line ends in the only line break it holds |
| Text.RowsLines | Tree.java:52-65 | the rows together hold one line break per row |
| Text.ToStringLines | Tree.java:45-50 | for a non-empty tree, `toString` holds one line break after the name plus one per node |
| Text.PathsAreRootToLeaf | Tree.java:162-175 | the path list holds exactly the root-to-leaf key paths, one per childless node |
| Text.PrintNextRecPrintsPaths | Tree.java:162-175 | `printNextRec(node, msg)` writes msg followed by each root-to-leaf path, left subtree first |
| Text.PrintAllPathsLines | Tree.java:159-161 | `printAllPaths` writes one line per leaf, each the keys of a root-to-leaf path |
| Text.NodeLabelInjective | Tree.java:340-353 | a node's label `Node:key<parent>` determines its key and its parent key |
| Linked.BinaryTreeNode.constructor | Tree.java:333-338 | a new childless node holding the key, with the given parent link |
| Linked.InsertAt | Tree.java:282-293 | the subtree afterwards spells the value-level insertion; exactly one fresh node holding x joins it; the subtree's root and its parent link stay put, or the new node becomes the root with the given parent; every old node keeps its key and parent link, and a child link of it changes only where it was null |
| Linked.FlipNodeChildren | Tree.java:86-97 | the subtree afterwards spells the mirror of the old one, with the same nodes; this node's children are swapped; every node of the subtree keeps its key and parent link |
| Linked.FindInOrderRecNode | Tree.java:240-255 | the list holds nodes of the subtree whose keys are its in-order listing |
| Linked.MakeStringRec | Tree.java:52-65 | the indent loop and the recursion produce the value-level `makeStringRec` text |
| Linked.Tree.constructor | Tree.java:12-14 | a new tree is empty and carries the label |
| Linked.Tree.FromSeq | Tree.java:22-40 | the insertion loop builds the tree of the keys inserted one by one, in order |
| Linked.Tree.Insert | Tree.java:214-216 | the tree afterwards spells the value-level insertion, with a non-null root; a non-empty tree keeps its root object; exactly one fresh object joins, and it joins the root's node set; every old node keeps its key and parent link, and a child link of it changes only where it was null |
| Linked.Tree.Flip | Tree.java:83-85 | the tree afterwards spells the mirror of the old one, with the same root and nodes; the root's children are swapped; every node keeps its key and parent link |
| Linked.Tree.InOrderTraversalRec | Tree.java:261-271 | the tree afterwards spells the median re-insertion of the list's keys into the old tree |
| Linked.Tree.BalanceTree | Tree.java:256-260 | the tree afterwards spells `BalanceTree` of the old value, so every Balancing lemma applies to it |
| Linked.Tree.ToString | Tree.java:45-50 | "Empty Tree" for an empty tree; otherwise the name, a line break and the `makeStringRec` text |

## Left out

- Generics: keys are `int`. `compareTo` becomes integer comparison and `key + ""` becomes decimal text. Other key types and their `toString` are not modelled.
- `getByKey` compares keys with `==`, which for boxed keys is reference identity. The model uses integer equality. Two equal keys in different boxes would match here but need not match in Java.
- `System.out.println` in `printAllPaths`: the printed lines become the returned sequence `Text.PrintAllPaths`.
- Tree.java's queries (`contains`, `getByKey`, `inOrderSuccessor`, `nodesInLevel`, `countBST`, `inOrderToString`, `printAllPaths`) are functions of the tree value, not methods walking the heap. They change nothing, and `Linked.Tree.Model()` links them to a tree object.
- Node handles are locations in the tree value, not object references. Two handles to the same node compare equal by value.
- The constructors from an `ArrayList` and from an array are one constructor, `Linked.Tree.FromSeq`, taking a sequence.
- The one-argument `BinaryTreeNode(E)` constructor is never called, and the `lt`/`rt` arguments of the other are always null. Only the childless form is modelled.
- `BinaryTreeNode.toString` on the heap (`Linked.BinaryTreeNode.ToString`) has no contract of its own. Its label function `Text.NodeLabel` carries the injectivity lemma.
- Linked.FlipNodeChildren: names the swapped child links only for the node it is called on. For deeper nodes the contract gives the mirrored `Model` and the kept keys and parent links, not the link objects themselves.
- Linked.InsertAt: does not name the one old node whose null child link was filled. It states only that no other kind of link change happens.
- Linked.Tree.Flip: requires a non-empty tree, because `flipNodeChildren` dereferences the root (Tree.java:84, 87).
- Text.PrintAllPaths: requires a non-empty tree, because `printNextRec` reads `node.key` of the root (Tree.java:160, 163).
- Balancing.BalanceTree: requires a non-empty tree. The null check in `findInOrderRecNode` is an empty block, and the next line dereferences the node (Tree.java:242-245).
- Linked.Tree.BalanceTree: requires a non-empty tree, for the same reason (Tree.java:242-245, 257).
- Locations.InOrderSuccessor: answers `None` where Java throws. That happens for a node with no right child and no greater ancestor: the climb reaches the root's null parent and reads its key (Tree.java:108, 111).
- Locations.SuccessorIsNextInOrder: the case without a right child is proved only for insert-ordered trees. On other trees the nearest greater ancestor need not be the in-order successor.
- Linked.Tree.InOrderTraversalRec: takes the keys of the node list as an extra ghost argument, to state its result. Its caller passes `Keys(sorted)`.
- Performance claims in comments (the O(log n) notes) and the copying of `ArrayList` halves: the halves are sequence slices.

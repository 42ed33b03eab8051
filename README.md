# Binary search tree (BST.js) in Dafny

This project models `BST.js`. The file defines a `Node` (a value plus left and right links) and a
`BinarySearchTree` holding a `root`. The tree supports these operations:

- It is built as a minimal-height tree from the sorted, duplicate-free input.
- Insertion and deletion come in two versions, one iterative and one recursive.
- Lookup also comes in an iterative and a recursive version.
- There are four traversals (level order, in order, pre order, post order), each taking a callback.
- The remaining queries are height, depth and the balance check.
- `rebalance` rebuilds the tree from its in-order values.

The model keeps the source's form. `Node` and `BinarySearchTree` are classes whose fields the
methods update in place. The loops of `insert`, `delete`, `find`, `depth`, `levelOrder` and the
successor walk are `while` loops with invariants. The recursive members follow the source's
recursion.

Every heap structure is tied to a ghost *shape*, a tree of (node, key) cells:

- `Linked` says the links and values in the heap are the shape.
- `Distinct` says no node occurs twice.
- `Abs` forgets the nodes and leaves the abstract `Tree<int>`.

Each operation is proved against a reference function on abstract trees: `SearchTree.Insert`,
`SearchTree.Delete`, `SearchTree.Depth`, `Build.BuildTree`, and the traversal functions of `Trees`.
The properties the program relies on are proved about those functions:

- the search-tree order is kept;
- the key set changes as stated;
- in-order traversal is ascending;
- the built tree is balanced, with height ⌊log2 n⌋.

Loops that walk down the tree carry a zipper (`Path`): the frames passed so far, innermost first.
The invariant says the whole shape is `Plug(path, sub)`, where `sub` is the subtree under the
cursor.

Modules:

- `Trees`: trees, size, keys, height, levels, balance, traversals, breadth-first order and the zipper.
- `SortedSeqs`: strictly ascending sequences.
- `SearchTree`: the search-tree order and the reference insertion, deletion and depth.
- `Build`: `sortAndRemoveDuplicates` and `buildTree` on values, with their order and height lemmas.
- `Heap`: `Node`, shapes, and the lemmas linking the heap to shapes.
- `Splice`: the lemmas behind the link surgery of deletion.
- `Bst`: the `BinarySearchTree` class.
- `Findings`: `deleteRecursive` as written.

`deleteRecursive` as written loses subtrees (see Findings). The class models the evidently intended
version, in which the two descending branches end with `return node`. The missing-child branches
still return `node.right` or `node.left`, as in the source.

## Model

| member | source | states |
|---|---|---|
| Heap.Node.constructor | BST.js:1-7 | a new node holds the value and has no children |
| Bst.BinarySearchTree.constructor | BST.js:10-12 | the new tree is a valid search tree whose abstract tree is `buildTree(sortAndRemoveDuplicates(input))`, and all its nodes are fresh |
| Build.Dedup | BST.js:15 | the result has no duplicates and holds exactly the input's elements not yet seen (`new Set`) |
| Build.SortNumeric | BST.js:16 | the result is a permutation of the input (the numeric sort) |
| Build.SortDistinctAscending | BST.js:16 | sorting a duplicate-free sequence gives a strictly ascending one |
| Build.SortAndRemoveDuplicates | BST.js:14-18 | the result is strictly ascending and has exactly the input's elements |
| Build.SortAndRemoveDuplicatesUnique | BST.js:14-18 | the result is the only strictly ascending sequence with the input's elements |
| Build.Middle | BST.js:23 | `mid` lies in `[left, right]` and splits the range into halves whose sizes differ by at most one, the right half never smaller |
| Bst.BinarySearchTree.BuildTree | BST.js:20-31 | the nodes built are fresh, linked without sharing, and form the tree `Build.BuildTree(a, left, right)` |
| Build.BuildTreeInOrder | BST.js:20-31 | the in-order sequence of the tree built over `[left, right]` is `a[left..right+1]` |
| Build.MinimalHeightIsLog | BST.js:20-31 | the minimal height `h` for `n >= 1` nodes satisfies `2^h <= n < 2^(h+1)`, so `h` is ⌊log2 n⌋ |
| Build.BuildTreeShape | BST.js:20-31 | the tree built over n elements has n nodes, the minimal height for n, and is height-balanced at every node |
| Build.BuildSortedCorrect | BST.js:20-31 | built from an ascending sequence, the tree is a search tree, its in-order sequence is that sequence, and it is balanced with minimal height |
| Build.BuildFromArrayCorrect | BST.js:10-31 | the tree built from any input is a balanced, minimal-height search tree whose in-order sequence is the sorted distinct input and whose keys are exactly the input's elements |
| SearchTree.BstIffAscending | BST.js:33-56 | a tree is a search tree exactly when its in-order sequence is strictly ascending |
| SearchTree.InsertCorrect | BST.js:33-56 | insertion keeps the order; the key set becomes keys ∪ {v}; a present key leaves the tree unchanged; otherwise the size grows by one |
| SearchTree.InsertInOrder | BST.js:33-56 | after insertion the in-order sequence is still strictly ascending, one longer if v was new and unchanged if it was present |
| Bst.BinarySearchTree.Insert | BST.js:33-56 | the tree stays valid and moves as `SearchTree.Insert`; a present value leaves the shape unchanged; a new value fills the empty slot its search reaches with one fresh leaf, and every other node keeps its place and key |
| Bst.BinarySearchTree.AttachLeft | BST.js:49-52 | linking a fresh leaf as `temp.left` keeps the tree valid and inserts the value, which was absent; the only new node is that leaf |
| Bst.BinarySearchTree.AttachRight | BST.js:43-46 | the mirror image of AttachLeft for `temp.right` |
| Heap.GrowSearch | BST.js:41-55 | when the search ends at an empty slot, the value is absent and filling that slot is `SearchTree.Insert`, with the order kept |
| Bst.BinarySearchTree.InsertRecursive | BST.js:58-73 | the same outcome as Insert, and the call returns the root |
| Bst.BinarySearchTree.InsertBelow | BST.js:64-72 | on a subtree: an empty slot becomes a fresh leaf; otherwise the same node comes back, its subtree moved as `SearchTree.Insert`, with only the new leaf added |
| Bst.BinarySearchTree.InsertRightOf | BST.js:66-67 | descending right: the same node comes back and the right subtree receives the value |
| Bst.BinarySearchTree.InsertLeftOf | BST.js:68-69 | descending left: the same node comes back and the left subtree receives the value |
| SearchTree.DeleteMinCorrect | BST.js:102-108 | the minimum key is in the tree and below every key; removing it keeps the order and removes only that key |
| SearchTree.DeleteCorrect | BST.js:75-118 | deletion keeps the order and the key set becomes keys \ {v}; an absent v leaves the tree unchanged |
| SearchTree.DeleteInOrder | BST.js:75-118 | the in-order sequence after deletion is the old one with v removed |
| Bst.BinarySearchTree.Delete | BST.js:75-118 | the tree stays valid and moves as `SearchTree.Delete`; an absent value changes neither the root nor the shape; no node is added |
| Bst.BinarySearchTree.SpliceOut | BST.js:91-100 | a found node with a missing child is replaced by that child in its parent's link, or as the root; the result is `SearchTree.Delete` |
| Bst.BinarySearchTree.Replace | BST.js:94-100 | writing the child into the parent's link the search came through relinks the whole tree around the new subtree |
| Bst.BinarySearchTree.PromoteAt | BST.js:101-117 | a found node with two children is deleted by promoting its successor; the result is `SearchTree.Delete` |
| Bst.BinarySearchTree.FindSuccessor | BST.js:102-108 | the walk ends at a node with no left child whose value is the minimum of the right subtree, so it is ≤ every key there; it reports the walk's path and its parent |
| Splice.SuccessorIsMin | BST.js:102-108 | the leftmost node of a subtree holds its minimum, and removing it is `DeleteMin` |
| Bst.BinarySearchTree.PromoteSuccessor | BST.js:102-116 | copying the successor's value up and unlinking the successor deletes the node's key from its subtree; the node stays that subtree's root; no node is added |
| Splice.PromotedAbs | BST.js:110-116 | a node with two children, after the successor's key is copied in and the successor unlinked from its spot, is `SearchTree.Delete` of its key |
| Bst.BinarySearchTree.Unhook | BST.js:110-116 | after the value copy and the `successorParent` write, the heap is linked as the promoted tree |
| Splice.SplicedCorrect | BST.js:91-92 | replacing a node that lacks a child by its other child is `SearchTree.Delete` of its key, and that node leaves the tree |
| Splice.ReplacedAlongPath | BST.js:79-100 | replacing the subtree at the end of a search path by its deletion deletes from the whole tree and keeps it a search tree without sharing |
| SearchTree.DeleteAlongPath | BST.js:79-87 | deleting from the whole tree equals deleting from the subtree the search reached |
| Bst.BinarySearchTree.DeleteRecursive | BST.js:120-158 | corrected version (see Findings): the tree stays valid and moves as `SearchTree.Delete`; the call returns the new root; no node is added |
| Bst.BinarySearchTree.DeleteAt | BST.js:120-158 | on a subtree, the returned node and new shape are linked and free of sharing, and the subtree moves as `SearchTree.Delete` |
| Bst.BinarySearchTree.DeleteLeftOf | BST.js:123-124 | descending left: the same node comes back and the value is deleted from its left subtree |
| Bst.BinarySearchTree.DeleteRightOf | BST.js:125-126 | descending right: the same node comes back and the value is deleted from its right subtree |
| Heap.LookupCorrect | BST.js:160-188 | the search result is non-null exactly when the value is a key; it is then a node of the tree holding that value |
| Bst.BinarySearchTree.Find | BST.js:160-174 | returns the search's node, which is non-null exactly when the value is in the tree and then holds that value |
| Bst.BinarySearchTree.FindRecursiveAt | BST.js:176-188 | the recursive search returns the same node as the reference search |
| Bst.BinarySearchTree.FindRecursive | BST.js:176-188 | the same result as Find |
| Bst.BinarySearchTree.LevelOrder | BST.js:190-208 | an empty tree visits nothing; a missing callback on a non-empty tree is the error; otherwise the nodes are visited in breadth-first order |
| Bst.BinarySearchTree.Drain | BST.js:196-207 | draining the queue visits the nodes in breadth-first order of the trees queued |
| Trees.BfsIsGenerations | BST.js:190-208 | the queue order is the level order: root first, then each generation left to right |
| Trees.LevelOrderVisitsAll | BST.js:190-208 | level order visits every node exactly once |
| Bst.BinarySearchTree.InOrderAt | BST.js:210-217 | no node visits nothing; a missing callback is the error; otherwise the visit is in order |
| Bst.BinarySearchTree.InOrder | BST.js:210-217 | in-order visits every node exactly once, in strictly ascending value order; an empty tree visits nothing; a missing callback is the error |
| Heap.InOrderValues | BST.js:210-217 | the nodes visited in order are the tree's nodes, with strictly ascending values |
| Bst.BinarySearchTree.PreOrderAt | BST.js:219-226 | no node visits nothing; a missing callback is the error; otherwise the visit is node, left, right |
| Bst.BinarySearchTree.PreOrder | BST.js:219-226 | the pre-order visit of the whole tree: one node per key, each a node of the tree, whose values are the pre-order key sequence, a rearrangement of the in-order keys; the same empty and missing-callback cases |
| Heap.PreOrderNodeValues | BST.js:219-226 | the nodes in pre-order are nodes of the tree holding, one by one, the pre-order keys, and there are as many as the tree has nodes |
| Bst.BinarySearchTree.PostOrderAt | BST.js:228-235 | no node visits nothing; a missing callback is the error; otherwise the visit is left, right, node |
| Bst.BinarySearchTree.PostOrder | BST.js:228-235 | the post-order visit of the whole tree: one node per key, each a node of the tree, whose values are the post-order key sequence, a rearrangement of the in-order keys; the same empty and missing-callback cases |
| Heap.PostOrderNodeValues | BST.js:228-235 | the nodes in post-order are nodes of the tree holding, one by one, the post-order keys, and there are as many as the tree has nodes |
| Trees.TraversalsAgree | BST.js:210-235 | pre-order and post-order visit the same multiset of nodes as in-order |
| Trees.InOrderElements | BST.js:210-217 | in-order visits as many nodes as the tree has and exactly its keys |
| Trees.Height | BST.js:237-244 | the height is −1 exactly for the empty tree |
| Trees.HeightIsDeepestLevel | BST.js:237-244 | no node lies deeper than the height, and a non-empty tree has a node at that depth |
| Bst.BinarySearchTree.HeightAt | BST.js:237-244 | the recursive height of a subtree is −1 for no node and otherwise 1 + the larger child height |
| Bst.BinarySearchTree.Height | BST.js:237-244 | the height of the whole tree, −1 exactly when the root is null |
| SearchTree.Depth | BST.js:246-262 | the depth is at least −1 and at most the height |
| SearchTree.DepthCorrect | BST.js:246-262 | the depth is non-negative exactly when the key is present, and equals d exactly when the key sits on level d (d edges below the root) |
| SearchTree.DepthAlongPath | BST.js:250-259 | each step down the search path adds one edge to the depth |
| Bst.BinarySearchTree.Depth | BST.js:246-262 | the loop returns the edge count of the search path to the node's value, or −1 when the value is absent |
| Bst.BinarySearchTree.BalancedHeight | BST.js:267-280 | the helper returns −2 or exactly the height, and −2 exactly when some node's child heights differ by more than one |
| Bst.BinarySearchTree.IsBalancedAt | BST.js:264-283 | true exactly when the subtree is height-balanced at every node |
| Bst.BinarySearchTree.IsBalanced | BST.js:264-283 | true exactly when the whole tree is height-balanced |
| Bst.BinarySearchTree.PushValues | BST.js:287 | the values pushed are those of the visited nodes, in order |
| Bst.BinarySearchTree.CollectInOrder | BST.js:286-287 | the collected array is the tree's in-order key sequence |
| Bst.BinarySearchTree.Rebalance | BST.js:285-290 | the tree stays valid with the same in-order keys, now balanced with the minimal height for its size, on fresh nodes |
| Findings.AsWrittenDelete | BST.js:120-158 | as written, when the root itself holds the value, the result is the intended deletion |
| Findings.AsWrittenNearRoot | BST.js:120-158 | as written, when the value is at the root's child or the search ends there, the result is still the intended deletion |
| Findings.AsWrittenDropsSide | BST.js:123-126 | as written, when the search turns twice, the side it first took is replaced by an empty subtree |
| Findings.SevenIsBuilt | BST.js:10-31 | the tree built from the array 1..7 is the complete tree rooted at 4 |
| Findings.AsWrittenLosesKeys | BST.js:123-126 | as written, deleting 1 from the tree built from 1..7 leaves {4, 5, 6, 7}; the intended deletion leaves {2, ..., 7} |

## Left out

- `prettyPrint` (BST.js:293-305) only renders text to the console; it is not part of this model.
- Keys are mathematical integers. JavaScript's number semantics are not modelled: NaN (under which
  the `delete` search loop at BST.js:79-87 would never end), `-0`, mixed types and the `Set`'s
  SameValueZero equality.
- Build.SortNumeric: the host `Array.prototype.sort` is replaced by an insertion sort. Only its
  result matters here, and it is fixed by being strictly ascending.
- Callbacks are not called. A traversal is given a flag saying whether a callback was supplied. It
  returns either the sequence of nodes the callback would receive, in order, or `MissingCallback`
  for the thrown error. What the callback does with a node is left out.
- Default parameters (`node = this.root`) are modelled by a static member on a given subtree, such
  as `InOrderAt`, plus a member on the whole tree. Calls with an explicit node other than the root
  are covered only through the static members.
- Bst.BinarySearchTree.Depth requires a non-null node. `depth(null)` throws a TypeError on a
  non-empty tree when `node.value` is read, and returns −1 on an empty tree.
- Bst.BinarySearchTree.DeleteRecursive assigns the returned node to `root`. The source instead
  resets `this.root` inside the two missing-child branches (BST.js:129-131, 135-137). In the
  corrected recursion these agree: the returned node is the new root.
- Bst.BinarySearchTree.BuildTree: the source links `node.left` (BST.js:27) before it builds the
  right half (BST.js:28). The model links both halves after both recursive calls. No caller can
  observe the order, because the recursive calls never touch `node`.
- Bst.BinarySearchTree.PromoteSuccessor: `delete` and `deleteRecursive` repeat the same successor
  walk and unlinking code (BST.js:102-116 and 141-155). The model writes it once and both methods
  call it.
- Findings.AsWrittenDelete reads the `undefined` link that the as-written `deleteRecursive` leaves
  as an empty subtree, which is how the loops treat it. The model does not capture the endless
  restart at the root that a later default-parameter call makes on that link.
- Memory reclamation, ownership release and running time are not modelled. Removed nodes stay
  allocated, and the postconditions only say that no new nodes appear.

## Findings

| source | as written | input that shows it | evidently intended | confidence | as-written member | corrected member |
|---|---|---|---|---|---|---|
| BST.js:123-126 | after `node.left = this.deleteRecursive(value, node.left)` (or the right-hand call) the function falls off its end and returns `undefined`. The caller one level up stores that in its own link, so the subtree where the search turned is cut off. Worse, the recursive members default their `node` parameter to `this.root`, and JavaScript applies that default to an `undefined` argument. So `height`, `isBalanced`, `inOrder`, `preOrder`, `postOrder` and `rebalance` restart at the root when they reach the cut link and never end, as do `findRecursive`, `insertRecursive` and `deleteRecursive` whenever their walk reaches it | `new BinarySearchTree([1,2,3,4,5,6,7]).deleteRecursive(1)` leaves the keys {4, 5, 6, 7}, losing 2 and 3, with `root.left` undefined. A later `height()` then calls `height(undefined)`, which starts again at the root | the two descending branches end with `return node`, as the successor branch does at BST.js:156, so that exactly 1 is removed | not executed | Findings.AsWrittenLosesKeys | Bst.BinarySearchTree.DeleteRecursive |

/** The class BinarySearchTree of BST.js:9-291. Its one field, root, is
    modelled as it is; the ghost field shape names the nodes reachable from
    root and the key each holds, and Model() is the abstract tree of keys.
    Every method keeps Valid(): the nodes form a tree linked as the shape
    says, and the keys satisfy the search-tree ordering. */
module Bst {
  import opened Trees
  import opened SortedSeqs
  import opened SearchTree
  import Build
  import opened Heap
  import opened Splice

  /** What a traversal does: the nodes handed to the callback, in order,
      or the error thrown when the callback is missing. */
  datatype Visit = Visited(nodes: seq<Node>) | MissingCallback

  /** The sentinel isBalanced's helper returns for an unbalanced subtree
      (BST.js:265); no height is below -1, so it is never a height. */
  const NotBalanced := -2

  class BinarySearchTree {
    var root: Node?
    ghost var shape: Shape

    ghost function Repr(): set<Node>
      reads this
    {
      NodesOf(shape)
    }

    ghost function Model(): Tree<int>
      reads this
    {
      Abs(shape)
    }

    ghost predicate Valid()
      reads this, Repr()
    {
      root == RootOf(shape) && Linked(shape) && Distinct(shape) && IsBST(Abs(shape))
    }

    /** buildTree (BST.js:20-31): fresh nodes for the index range
        [left, right] of a, the middle one at the root. */
    static method BuildTree(a: seq<int>, left: int, right: int) returns (node: Node?, ghost s: Shape)
      requires left > right || (0 <= left && right < |a|)
      ensures Linked(s) && Distinct(s) && node == RootOf(s)
      ensures Abs(s) == Build.BuildTree(a, left, right)
      ensures fresh(NodesOf(s))
      decreases right - left + 1
    {
      if left > right {
        return null, Leaf;
      }
      var mid := Build.Middle(left, right);
      node := new Node(a[mid]);
      var l, sl := BuildTree(a, left, mid - 1);
      NodesAllocated(sl);
      var r, sr := BuildTree(a, mid + 1, right);
      assert node !in NodesOf(sl) && node !in NodesOf(sr) && NodesOf(sl) !! NodesOf(sr);
      Build.BuildTreeFold(a, left, right, Abs(sl), Abs(sr));
      NodesAllocated(sr);
      label built:
      node.left := l;
      node.right := r;
      LinkedKept@built(sl);
      LinkedKept@built(sr);
      Join(sl, Cell(node, a[mid]), sr);
      s := Branch(sl, Cell(node, a[mid]), sr);
      assert NodesOf(s) == NodesOf(sl) + {node} + NodesOf(sr);
    }

    /** BST.js:10-12: the tree built from the distinct elements of input in
        ascending order. */
    constructor(input: seq<int>)
      ensures Valid()
      ensures Model() == Build.BuildFromArray(input)
      ensures fresh(Repr())
    {
      var sorted := Build.SortAndRemoveDuplicates(input);
      var r, s := BuildTree(sorted, 0, |sorted| - 1);
      Build.BuildSortedCorrect(sorted);
      assert IsBST(Abs(s)) && Abs(s) == Build.BuildFromArray(input);
      root := r;
      shape := s;
    }
  

    /** insert (BST.js:33-56): walk down from the root by comparison and
        hang a new node in the empty slot reached; an equal key stops the
        walk and changes nothing. */
    method Insert(value: int)
      requires Valid()
      modifies this, Repr()
      ensures Valid()
      ensures Model() == SearchTree.Insert(old(Model()), value)
      ensures value in Keys(old(Model())) ==> shape == old(shape)
      ensures value !in Keys(old(Model())) ==> Filled(old(shape), shape, value)
      ensures fresh(Repr() - old(Repr()))
    {
      InsertCorrect(Model(), value);
      if root == null {
        var n := new Node(value);
        root := n;
        shape := Branch(Leaf, Cell(n, value), Leaf);
        return;
      }
      var temp := root;
      ghost var path: Path := [];
      ghost var sub := shape;
      while true
        invariant Valid() && shape == old(shape)
        invariant sub.Branch? && temp == sub.key.node
        invariant shape == Plug(path, sub) && OnSearchPath(AbsPath(path), value)
        decreases Size(sub)
      {
        LinkedPlug(path, sub);
        NodesOfPlug(path, sub);
        if value > temp.value {
          if temp.right == null {
            assert Repr() == old(Repr());
            var n := AttachRight(path, sub, temp, value);
            return;
          }
          StepDown(path, WentRight(sub.left, sub.key), sub.right, value);
          path := [WentRight(sub.left, sub.key)] + path;
          sub := sub.right;
          temp := temp.right;
        } else if value < temp.value {
          if temp.left == null {
            assert Repr() == old(Repr());
            var n := AttachLeft(path, sub, temp, value);
            return;
          }
          StepDown(path, WentLeft(sub.key, sub.right), sub.left, value);
          path := [WentLeft(sub.key, sub.right)] + path;
          sub := sub.left;
          temp := temp.left;
        } else {
          AbsPlug(path, sub);
          assert value in Keys(Abs(sub));
          KeysPlug(AbsPath(path), Abs(sub));
          return;
        }
      }
    }

    /** insertRecursive (BST.js:58-73) called as the class does, with the
        root as the starting node: an empty tree gets a root for value, and
        otherwise the recursion below hangs value in place. The root is
        returned. */
    method InsertRecursive(value: int) returns (r: Node)
      requires Valid()
      modifies this, Repr()
      ensures Valid() && r == root
      ensures Model() == SearchTree.Insert(old(Model()), value)
      ensures value in Keys(old(Model())) ==> shape == old(shape)
      ensures value !in Keys(old(Model())) ==> Filled(old(shape), shape, value)
      ensures fresh(Repr() - old(Repr()))
    {
      InsertCorrect(Model(), value);
      if root == null {
        r := new Node(value);
        root := r;
        shape := Branch(Leaf, Cell(r, value), Leaf);
        return;
      }
      ghost var s;
      r, s := InsertBelow(value, root, shape);
      shape := s;
    }

    /** The recursion of insertRecursive (BST.js:64-72) at node, the root of
        s: an empty slot yields a new node; otherwise the call goes down the
        side value belongs on, and an equal key returns node unchanged. */
    static method InsertBelow(value: int, node: Node?, ghost s: Shape) returns (r: Node, ghost s': Shape)
      requires Linked(s) && Distinct(s) && IsBST(Abs(s)) && node == RootOf(s)
      modifies NodesOf(s)
      ensures Linked(s') && Distinct(s') && r == RootOf(s')
      ensures node != null ==> r == node
      ensures Abs(s') == SearchTree.Insert(Abs(s), value)
      ensures value in Keys(Abs(s)) ==> s' == s
      ensures value !in Keys(Abs(s)) ==> Filled(s, s', value)
      ensures NodesOf(s) <= NodesOf(s') && fresh(NodesOf(s') - NodesOf(s))
      decreases s, 1
    {
      if node == null {
        r := new Node(value);
        s' := Branch(Leaf, Cell(r, value), Leaf);
      } else if value > node.value {
        r, s' := InsertRightOf(value, node, s);
      } else if value < node.value {
        r, s' := InsertLeftOf(value, node, s);
      } else {
        r, s' := node, s;
      }
    }

    /** insertRecursive at a node whose key is smaller than value
        (BST.js:66-67, 72): the call on the right child, whose result becomes
        the right link, and the node itself returned. */
    static method InsertRightOf(value: int, node: Node, ghost s: Shape) returns (r: Node, ghost s': Shape)
      requires Linked(s) && Distinct(s) && IsBST(Abs(s)) && node == RootOf(s)
      requires s.Branch? && value > s.key.key
      modifies NodesOf(s)
      ensures Linked(s') && Distinct(s') && r == RootOf(s')
      ensures r == node
      ensures Abs(s') == SearchTree.Insert(Abs(s), value)
      ensures value in Keys(Abs(s)) ==> s' == s
      ensures value !in Keys(Abs(s)) ==> Filled(s, s', value)
      ensures NodesOf(s) <= NodesOf(s') && fresh(NodesOf(s') - NodesOf(s))
      decreases s, 0
    {
      NodesAllocated(s);
      ghost var f := WentRight(s.left, s.key);
      var child;
      ghost var t';
      child, t' := InsertBelow(value, node.right, s.right);
      node.right := child;
      s' := Attach(f, t');
      InsertedBelow(f, s.right, t', value);
      KeysBelow(f, s.right, value);
      if value !in Keys(Abs(s.right)) {
        FilledStep(f, s.right, t', value);
      }
      DistinctReplaced(f, s.right, t');
      LinkedReplaced(f, t');
      r := node;
    }

    /** insertRecursive at a node whose key is larger than value
        (BST.js:68-69, 72): the call on the left child, whose result becomes
        the left link, and the node itself returned. */
    static method InsertLeftOf(value: int, node: Node, ghost s: Shape) returns (r: Node, ghost s': Shape)
      requires Linked(s) && Distinct(s) && IsBST(Abs(s)) && node == RootOf(s)
      requires s.Branch? && value < s.key.key
      modifies NodesOf(s)
      ensures Linked(s') && Distinct(s') && r == RootOf(s')
      ensures r == node
      ensures Abs(s') == SearchTree.Insert(Abs(s), value)
      ensures value in Keys(Abs(s)) ==> s' == s
      ensures value !in Keys(Abs(s)) ==> Filled(s, s', value)
      ensures NodesOf(s) <= NodesOf(s') && fresh(NodesOf(s') - NodesOf(s))
      decreases s, 0
    {
      NodesAllocated(s);
      ghost var f := WentLeft(s.key, s.right);
      var child;
      ghost var t';
      child, t' := InsertBelow(value, node.left, s.left);
      node.left := child;
      s' := Attach(f, t');
      InsertedBelow(f, s.left, t', value);
      KeysBelow(f, s.left, value);
      if value !in Keys(Abs(s.left)) {
        FilledStep(f, s.left, t', value);
      }
      DistinctReplaced(f, s.left, t');
      LinkedReplaced(f, t');
      r := node;
    }

    /** The end of insert's walk to the left (BST.js:49-51): a new node for value becomes the
        left child of temp, whose left slot was empty. */
    method AttachLeft(ghost path: Path, ghost sub: Shape, temp: Node, value: int) returns (n: Node)
      requires Valid() && shape == Plug(path, sub) && OnSearchPath(AbsPath(path), value)
      requires sub.Branch? && sub.key.node == temp && temp in Repr()
      requires sub.left.Leaf? && value < sub.key.key
      modifies this, temp
      ensures Valid()
      ensures Model() == SearchTree.Insert(old(Model()), value)
      ensures Filled(old(shape), shape, value)
      ensures fresh(n) && Repr() == old(Repr()) + {n}
      ensures value !in Keys(old(Model()))
    {
      AroundNode(path, sub, true);
      NodesAllocated(shape);
      n := new Node(value);
      temp.left := n;
      ghost var c := Cell(n, value);
      LinkedGrow(path, sub, c, true);
      GrowNodes(path, sub, c, true);
      GrowSearch(path, sub, c, true);
      shape := Plug(path, Grow(sub, c, true));
    }

    /** The end of insert's walk to the right (BST.js:43-45): a new node for value becomes the
        right child of temp, whose right slot was empty. */
    method AttachRight(ghost path: Path, ghost sub: Shape, temp: Node, value: int) returns (n: Node)
      requires Valid() && shape == Plug(path, sub) && OnSearchPath(AbsPath(path), value)
      requires sub.Branch? && sub.key.node == temp && temp in Repr()
      requires sub.right.Leaf? && value > sub.key.key
      modifies this, temp
      ensures Valid()
      ensures Model() == SearchTree.Insert(old(Model()), value)
      ensures Filled(old(shape), shape, value)
      ensures fresh(n) && Repr() == old(Repr()) + {n}
      ensures value !in Keys(old(Model()))
    {
      AroundNode(path, sub, false);
      NodesAllocated(shape);
      n := new Node(value);
      temp.right := n;
      ghost var c := Cell(n, value);
      LinkedGrow(path, sub, c, false);
      GrowNodes(path, sub, c, false);
      GrowSearch(path, sub, c, false);
      shape := Plug(path, Grow(sub, c, false));
    }

    // -------------------------------------------------------------------
    // Deletion (BST.js:75-158).

    /** delete (BST.js:75-118): walk down from the root by comparison,
        remembering the parent, until a node holding value is met; an absent
        value changes nothing. A node with at most one child gives way to
        that child, in its parent or in root; a node with two children takes
        its successor's key and the successor is spliced out. */
    method Delete(value: int)
      requires Valid()
      modifies this, Repr()
      ensures Valid()
      ensures Model() == SearchTree.Delete(old(Model()), value)
      ensures value !in Keys(old(Model())) ==> shape == old(shape) && root == old(root)
      ensures Repr() <= old(Repr())
    {
      var parent: Node? := null;
      var current := root;
      ghost var path: Path := [];
      ghost var sub := shape;
      while current != null && current.value != value
        invariant Valid() && shape == old(shape) && root == old(root)
        invariant shape == Plug(path, sub) && OnSearchPath(AbsPath(path), value)
        invariant current == RootOf(sub)
        invariant parent == if path == [] then null else path[0].key.node
        decreases Size(sub)
      {
        LinkedPlug(path, sub);
        if value > current.value {
          StepDown(path, WentRight(sub.left, sub.key), sub.right, value);
          path := [WentRight(sub.left, sub.key)] + path;
          sub := sub.right;
          parent := current;
          current := current.right;
        } else if value < current.value {
          StepDown(path, WentLeft(sub.key, sub.right), sub.left, value);
          path := [WentLeft(sub.key, sub.right)] + path;
          sub := sub.left;
          parent := current;
          current := current.left;
        }
      }
      AbsPlug(path, sub);
      BstAlongPath(AbsPath(path), Abs(sub), value);
      DeleteCorrect(Model(), value);
      if current == null {
        return;
      }
      LinkedPlug(path, sub);
      if current.left == null || current.right == null {
        if path != [] {
          PathFront(path);
          NodesOfPlug(path, sub);
        }
        SpliceOut(path, sub, parent, current, value);
      } else {
        PromoteAt(path, sub, current, value);
      }
    }

    /** The end of delete for a node with at most one child (BST.js:91-100):
        its child, or null, takes its place in root or in its parent. */
    method SpliceOut(ghost path: Path, ghost sub: Shape, parent: Node?, current: Node, value: int)
      requires Valid() && shape == Plug(path, sub) && OnSearchPath(AbsPath(path), value)
      requires sub.Branch? && sub.key.node == current && sub.key.key == value
      requires current.left == null || current.right == null
      requires parent == if path == [] then null else path[0].key.node
      modifies this, parent
      ensures Valid()
      ensures Model() == SearchTree.Delete(old(Model()), value)
      ensures Repr() <= old(Repr())
    {
      Found(path, sub);
      var child := if current.left != null then current.left else current.right;
      ghost var t := Spliced(sub);
      assert Linked(t) && child == RootOf(t);
      SplicedCorrect(sub, value);
      ReplacedAlongPath(path, sub, t, value);
      if root == current {
        root := child;
        shape := t;
        return;
      }
      ParentFrame(path, sub);
      RootOfPlug(path, sub);
      RootOfPlug(path, t);
      Replace(parent, current, child, path, t);
      shape := Plug(path, t);
    }

    /** The write of BST.js:94-100: the parent's link that referred to
        current now refers to child, the root of t. */
    static method Replace(parent: Node, current: Node, child: Node?, ghost path: Path, ghost t: Shape)
      requires path != [] && parent == path[0].key.node && PathLinked(path, current)
      requires parent.left == current <==> path[0].WentLeft?
      requires Linked(t) && child == RootOf(t)
      requires parent !in NodesOf(t) && parent !in NodesOf(Sibling(path[0])) && parent !in PathNodes(path[1..])
      modifies parent
      ensures Linked(Plug(path, t))
    {
      NodesAllocated(t);
      NodesAllocated(Sibling(path[0]));
      assert Linked(Sibling(path[0])) && PathLinked(path[1..], parent);
      label before:
      if parent.left == current {
        parent.left := child;
      } else {
        parent.right := child;
      }
      LinkedKept@before(t);
      LinkedKept@before(Sibling(path[0]));
      Relink(path, t);
    }

    /** The end of delete for a node with two children (BST.js:102-117). */
    method PromoteAt(ghost path: Path, ghost sub: Shape, current: Node, value: int)
      requires Valid() && shape == Plug(path, sub) && OnSearchPath(AbsPath(path), value)
      requires sub.Branch? && sub.key.node == current && sub.key.key == value
      requires current.left != null && current.right != null
      modifies this, Repr()
      ensures Valid()
      ensures Model() == SearchTree.Delete(old(Model()), value)
      ensures Repr() <= old(Repr())
    {
      Found(path, sub);
      NodesAllocated(shape);
      assert sub.left.Branch? && sub.right.Branch?;
      BstAlongPath(AbsPath(path), Abs(sub), value) by { AbsPlug(path, sub); }
      ghost var t := PromoteSuccessor(current, sub);
      ReplacedAlongPath(path, sub, t, value);
      LinkedPlug(path, t);
      RootOfPlug(path, sub);
      RootOfPlug(path, t);
      shape := Plug(path, t);
    }

    /** deleteRecursive (BST.js:120-158) from the root, with the return
        that its descending branches lack put back (see Findings): the node
        returned for the root becomes root. */
    method DeleteRecursive(value: int) returns (r: Node?)
      requires Valid()
      modifies this, Repr()
      ensures Valid() && r == root
      ensures Model() == SearchTree.Delete(old(Model()), value)
      ensures Repr() <= old(Repr())
    {
      DeleteCorrect(Model(), value);
      ghost var s;
      r, s := DeleteAt(value, root, shape);
      root := r;
      shape := s;
    }

    /** The recursion of deleteRecursive at node, the root of s: fall off
        the tree and return null; go down the side value belongs on; or,
        at a node holding value, return the child that replaces it, or keep
        the node and promote its successor. */
    static method DeleteAt(value: int, node: Node?, ghost s: Shape) returns (r: Node?, ghost s': Shape)
      requires Linked(s) && Distinct(s) && IsBST(Abs(s)) && node == RootOf(s)
      modifies NodesOf(s)
      ensures Linked(s') && Distinct(s') && r == RootOf(s')
      ensures Abs(s') == SearchTree.Delete(Abs(s), value)
      ensures NodesOf(s') <= NodesOf(s)
      decreases s, 1
    {
      if node == null {
        return null, Leaf;
      }
      if node.value > value {
        r, s' := DeleteLeftOf(value, node, s);
      } else if node.value < value {
        r, s' := DeleteRightOf(value, node, s);
      } else if node.left == null {
        r, s' := node.right, s.right;
        AbsKeys(s.left);
      } else if node.right == null {
        r, s' := node.left, s.left;
        AbsKeys(s.right);
      } else {
        s' := PromoteSuccessor(node, s);
        r := node;
      }
    }

    /** deleteRecursive at a node whose key is larger than value
        (BST.js:123-124): the call on the left child, whose result becomes
        the left link, and the node itself returned. */
    static method DeleteLeftOf(value: int, node: Node, ghost s: Shape) returns (r: Node, ghost s': Shape)
      requires Linked(s) && Distinct(s) && IsBST(Abs(s)) && node == RootOf(s)
      requires s.Branch? && value < s.key.key
      modifies NodesOf(s)
      ensures Linked(s') && Distinct(s') && r == RootOf(s') && r == node
      ensures Abs(s') == SearchTree.Delete(Abs(s), value)
      ensures NodesOf(s') <= NodesOf(s)
      decreases s, 0
    {
      NodesAllocated(s);
      ghost var f := WentLeft(s.key, s.right);
      var child;
      ghost var t';
      child, t' := DeleteAt(value, node.left, s.left);
      node.left := child;
      s' := Attach(f, t');
      DeletedBelow(f, s.left, t', value);
      DistinctReplaced(f, s.left, t');
      LinkedReplaced(f, t');
      r := node;
    }

    /** deleteRecursive at a node whose key is smaller than value
        (BST.js:125-126): the call on the right child, whose result becomes
        the right link, and the node itself returned. */
    static method DeleteRightOf(value: int, node: Node, ghost s: Shape) returns (r: Node, ghost s': Shape)
      requires Linked(s) && Distinct(s) && IsBST(Abs(s)) && node == RootOf(s)
      requires s.Branch? && value > s.key.key
      modifies NodesOf(s)
      ensures Linked(s') && Distinct(s') && r == RootOf(s') && r == node
      ensures Abs(s') == SearchTree.Delete(Abs(s), value)
      ensures NodesOf(s') <= NodesOf(s)
      decreases s, 0
    {
      NodesAllocated(s);
      ghost var f := WentRight(s.left, s.key);
      var child;
      ghost var t';
      child, t' := DeleteAt(value, node.right, s.right);
      node.right := child;
      s' := Attach(f, t');
      DeletedBelow(f, s.right, t', value);
      DistinctReplaced(f, s.right, t');
      LinkedReplaced(f, t');
      r := node;
    }

    /** The walk of BST.js:102-108 and 141-147: from the right child of
        node, follow left links to a node without a left child. That node,
        the successor, holds the least key of node's right subtree. */
    static method FindSuccessor(node: Node, ghost s: Shape)
      returns (successorParent: Node, successor: Node, ghost spath: Path, ghost ssub: Shape)
      requires Linked(s) && IsBST(Abs(s)) && s.Branch? && s.right.Branch? && node == s.key.node
      ensures successor.left == null
      ensures successor.value == MinKey(Abs(s.right))
      ensures successor.value in Keys(Abs(s.right))
      ensures forall x :: x in Keys(Abs(s.right)) ==> successor.value <= x
      ensures s.right == Plug(spath, ssub) && AllLeft(spath) && ssub.Branch? && ssub.left.Leaf?
      ensures successor == ssub.key.node
      ensures successorParent == if spath == [] then node else spath[0].key.node
    {
      successorParent := node;
      successor := node.right;
      spath := [];
      ssub := s.right;
      while successor.left != null
        invariant s.right == Plug(spath, ssub) && AllLeft(spath) && ssub.Branch?
        invariant Linked(ssub) && successor == ssub.key.node
        invariant successorParent == if spath == [] then node else spath[0].key.node
        decreases Size(ssub)
      {
        LeftStep(spath, ssub);
        successorParent := successor;
        successor := successor.left;
        spath := [WentLeft(ssub.key, ssub.right)] + spath;
        ssub := ssub.left;
      }
      SuccessorIsMin(spath, ssub);
      DeleteMinCorrect(Abs(s.right));
    }

    /** A node with two children loses its key (BST.js:101-116 and 141-155):
        the successor's key is copied into it and the successor's parent
        takes the successor's right subtree in the successor's place. */
    static method PromoteSuccessor(node: Node, ghost s: Shape) returns (ghost s': Shape)
      requires Linked(s) && Distinct(s) && IsBST(Abs(s)) && node == RootOf(s)
      requires s.Branch? && s.left.Branch? && s.right.Branch?
      modifies NodesOf(s)
      ensures Linked(s') && Distinct(s') && RootOf(s') == node
      ensures Abs(s') == SearchTree.Delete(Abs(s), s.key.key)
      ensures NodesOf(s') <= NodesOf(s)
    {
      var successorParent, successor;
      ghost var spath, ssub;
      NodesAllocated(s);
      successorParent, successor, spath, ssub := FindSuccessor(node, s);
      PromotedAbs(s, spath, ssub);
      PromotedNodes(s, spath, ssub);
      UnhookLinks(s, spath, ssub);
      NodesOfPlug(spath, ssub);
      DistinctPlug(spath, ssub);
      UnhookFrame(s, spath, ssub, successorParent);
      Unhook(node, successorParent, successor, s.left, spath, ssub);
      s' := Promoted(s, spath, ssub);
    }

    /** The writes of BST.js:110-116 and 149-155: the successor's key goes into node,
        and the successor's parent, node itself when the successor is node's
        right child, takes the successor's right subtree in its place. The
        requires list what the walk found: the successor at the root of
        ssub at the end of the left walk spath below node's right child, and
        neither written node among the nodes that must stay linked. */
    static method Unhook(node: Node, successorParent: Node, successor: Node,
                         ghost l: Shape, ghost spath: Path, ghost ssub: Shape)
      requires ssub.Branch? && successor == ssub.key.node && Linked(l) && Linked(ssub)
      requires node.left == RootOf(l) && node.left != successor && node != successor
      requires node !in NodesOf(l) && node !in NodesOf(ssub.right)
      requires successorParent !in NodesOf(l) && successorParent !in NodesOf(ssub.right)
      requires spath == [] ==> successorParent == node && node.right == successor
      requires spath != [] ==>
        successorParent == spath[0].key.node && spath[0].WentLeft? && PathLinked(spath, successor) &&
        node != successorParent && node.right == RootOf(Plug(spath, ssub.right)) &&
        node !in NodesOf(spath[0].right) && node !in PathNodes(spath[1..]) &&
        successorParent !in NodesOf(spath[0].right) && successorParent !in PathNodes(spath[1..])
      modifies node, successorParent
      ensures Linked(Branch(l, Cell(node, ssub.key.key), Plug(spath, ssub.right)))
    {
      ghost var sib := if spath == [] then Leaf else spath[0].right;
      NodesAllocated(l);
      NodesAllocated(ssub.right);
      NodesAllocated(sib);
      assert Linked(ssub.right);
      assert spath != [] ==> Linked(sib) && PathLinked(spath[1..], successorParent);
      label before:
      node.value := successor.value;
      if successorParent.left == successor {
        successorParent.left := successor.right;
      } else {
        successorParent.right := successor.right;
      }
      LinkedKept@before(l);
      LinkedKept@before(ssub.right);
      if spath != [] {
        LinkedKept@before(sib);
        Relink(spath, ssub.right);
      }
    }

    // -------------------------------------------------------------------
    // Searching (BST.js:160-188).

    /** find (BST.js:160-174): walk down by comparison until a node holding
        value is met, or the walk falls off the tree. */
    method Find(value: int) returns (r: Node?)
      requires Valid()
      ensures r == Lookup(shape, value)
      ensures r != null <==> value in Keys(Model())
      ensures r != null ==> r in Repr() && r.value == value
    {
      LookupCorrect(shape, value);
      var temp := root;
      ghost var sub := shape;
      while temp != null
        invariant Linked(sub) && temp == RootOf(sub)
        invariant Lookup(sub, value) == Lookup(shape, value)
        decreases Size(sub)
      {
        if value == temp.value {
          return temp;
        } else if value < temp.value {
          temp := temp.left;
          sub := sub.left;
        } else {
          temp := temp.right;
          sub := sub.right;
        }
      }
      return null;
    }

    /** findRecursive (BST.js:176-188) from node, the root of s. */
    static function FindRecursiveAt(value: int, node: Node?, ghost s: Shape): (r: Node?)
      requires Linked(s) && node == RootOf(s)
      reads NodesOf(s)
      ensures r == Lookup(s, value)
      decreases s
    {
      if node == null then null
      else if value == node.value then node
      else if value < node.value then FindRecursiveAt(value, node.left, s.left)
      else FindRecursiveAt(value, node.right, s.right)
    }

    /** findRecursive from the root, as the class calls it: the same node
        find returns. */
    function FindRecursive(value: int): (r: Node?)
      requires Valid()
      reads this, Repr()
      ensures r == Lookup(shape, value)
      ensures r != null <==> value in Keys(Model())
      ensures r != null ==> r in Repr() && r.value == value
    {
      LookupCorrect(shape, value);
      FindRecursiveAt(value, root, shape)
    }

    // -------------------------------------------------------------------
    // Traversals (BST.js:190-235). The callback is modelled by whether one
    // is given; the nodes it would be called on are returned in order.

    /** levelOrder (BST.js:190-208): a FIFO queue that starts with the root;
        each node taken from the front has its non-empty children pushed at
        the back, left first, and is then handed to the callback. */
    method LevelOrder(hasCallback: bool) returns (v: Visit)
      requires Valid()
      ensures root == null ==> v == Visited([])
      ensures root != null && !hasCallback ==> v == MissingCallback
      ensures root != null && hasCallback ==> v == Visited(NodesIn(Trees.LevelOrder(shape)))
    {
      if root == null {
        return Visited([]);
      }
      if !hasCallback {
        return MissingCallback;
      }
      LevelOrderVisitsAll(shape);
      var visited := Drain([root], [shape]);
      return Visited(visited);
    }

    /** The queue loop of levelOrder: dequeue a node, visit it, enqueue its
        non-null children, until the queue is empty. */
    static method Drain(queue0: seq<Node>, ghost qs0: seq<Shape>) returns (visited: seq<Node>)
      requires Mirrors(queue0, qs0)
      requires forall i :: 0 <= i < |qs0| ==> Linked(qs0[i])
      ensures visited == NodesIn(Bfs(qs0))
    {
      var queue: seq<Node> := queue0;
      ghost var qs := qs0;
      visited := [];
      while |queue| > 0
        invariant Mirrors(queue, qs)
        invariant forall i :: 0 <= i < |qs| ==> Linked(qs[i])
        invariant NodesIn(Bfs(qs0)) == visited + NodesIn(Bfs(qs))
        decreases SizeSum(qs), |qs|
      {
        var node := queue[0];
        ghost var x := qs[0];
        assert Linked(x) && node == x.key.node;
        MirrorsStep(queue, qs, node.left, node.right);
        LinkedQueueStep(qs);
        VisitStep(qs);
        ghost var rest := NodesIn(Bfs(qs[1..] + Children(x)));
        assert visited + NodesIn(Bfs(qs)) == (visited + [node]) + rest;
        queue := Enqueue(Enqueue(queue[1..], node.left), node.right);
        visited := visited + [node];
        qs := qs[1..] + Children(x);
      }
    }

    /** inOrder (BST.js:210-217) from node, the root of s. */
    static function InOrderAt(hasCallback: bool, node: Node?, ghost s: Shape): (v: Visit)
      requires Linked(s) && node == RootOf(s)
      reads NodesOf(s)
      ensures node == null ==> v == Visited([])
      ensures node != null && !hasCallback ==> v == MissingCallback
      ensures hasCallback ==> v == Visited(NodesIn(Trees.InOrder(s)))
      decreases s
    {
      if node == null then Visited([])
      else if !hasCallback then MissingCallback
      else
        var a := InOrderAt(true, node.left, s.left);
        var b := InOrderAt(true, node.right, s.right);
        assert Trees.InOrder(s) == Trees.InOrder(s.left) + [s.key] + Trees.InOrder(s.right);
        NodesInAppend(Trees.InOrder(s.left) + [s.key], Trees.InOrder(s.right));
        NodesInAppend(Trees.InOrder(s.left), [s.key]);
        assert NodesIn([s.key]) == [node];
        Visited(a.nodes + [node] + b.nodes)
    }

    /** preOrder (BST.js:219-226) from node, the root of s. */
    static function PreOrderAt(hasCallback: bool, node: Node?, ghost s: Shape): (v: Visit)
      requires Linked(s) && node == RootOf(s)
      reads NodesOf(s)
      ensures node == null ==> v == Visited([])
      ensures node != null && !hasCallback ==> v == MissingCallback
      ensures hasCallback ==> v == Visited(NodesIn(Trees.PreOrder(s)))
      decreases s
    {
      if node == null then Visited([])
      else if !hasCallback then MissingCallback
      else
        var a := PreOrderAt(true, node.left, s.left);
        var b := PreOrderAt(true, node.right, s.right);
        NodesInAppend([s.key] + Trees.PreOrder(s.left), Trees.PreOrder(s.right));
        NodesInAppend([s.key], Trees.PreOrder(s.left));
        Visited([node] + a.nodes + b.nodes)
    }

    /** postOrder (BST.js:228-235) from node, the root of s. */
    static function PostOrderAt(hasCallback: bool, node: Node?, ghost s: Shape): (v: Visit)
      requires Linked(s) && node == RootOf(s)
      reads NodesOf(s)
      ensures node == null ==> v == Visited([])
      ensures node != null && !hasCallback ==> v == MissingCallback
      ensures hasCallback ==> v == Visited(NodesIn(Trees.PostOrder(s)))
      decreases s
    {
      if node == null then Visited([])
      else if !hasCallback then MissingCallback
      else
        var a := PostOrderAt(true, node.left, s.left);
        var b := PostOrderAt(true, node.right, s.right);
        assert Trees.PostOrder(s) == Trees.PostOrder(s.left) + Trees.PostOrder(s.right) + [s.key];
        NodesInAppend(Trees.PostOrder(s.left) + Trees.PostOrder(s.right), [s.key]);
        NodesInAppend(Trees.PostOrder(s.left), Trees.PostOrder(s.right));
        assert NodesIn([s.key]) == [node];
        Visited(a.nodes + b.nodes + [node])
    }

    /** inOrder from the root: every node once, and on a search tree the
        values handed to the callback are strictly ascending. */
    function InOrder(hasCallback: bool): (v: Visit)
      requires Valid()
      reads this, Repr()
      ensures root == null ==> v == Visited([])
      ensures root != null && !hasCallback ==> v == MissingCallback
      ensures hasCallback ==> v == Visited(NodesIn(Trees.InOrder(shape)))
      ensures hasCallback ==> |v.nodes| == Size(Model())
      ensures hasCallback ==> forall i :: 0 <= i < |v.nodes| ==> v.nodes[i] in Repr()
      ensures hasCallback ==> forall i, j :: 0 <= i < j < |v.nodes| ==> v.nodes[i].value < v.nodes[j].value
    {
      InOrderValues(shape);
      InOrderAt(hasCallback, root, shape)
    }

    /** preOrder from the root: every node once, its values handed over in
        the pre-order of the keys, which are the in-order keys rearranged. */
    function PreOrder(hasCallback: bool): (v: Visit)
      requires Valid()
      reads this, Repr()
      ensures root == null ==> v == Visited([])
      ensures root != null && !hasCallback ==> v == MissingCallback
      ensures hasCallback ==> v == Visited(NodesIn(Trees.PreOrder(shape)))
      ensures hasCallback ==> |v.nodes| == |Trees.PreOrder(Model())| == Size(Model())
      ensures hasCallback ==> forall i :: 0 <= i < |v.nodes| ==>
        v.nodes[i] in Repr() && v.nodes[i].value == Trees.PreOrder(Model())[i]
      ensures multiset(Trees.PreOrder(Model())) == multiset(Trees.InOrder(Model()))
    {
      PreOrderNodeValues(shape);
      PreOrderAt(hasCallback, root, shape)
    }

    /** postOrder from the root: every node once, its values handed over in
        the post-order of the keys, which are the in-order keys rearranged. */
    function PostOrder(hasCallback: bool): (v: Visit)
      requires Valid()
      reads this, Repr()
      ensures root == null ==> v == Visited([])
      ensures root != null && !hasCallback ==> v == MissingCallback
      ensures hasCallback ==> v == Visited(NodesIn(Trees.PostOrder(shape)))
      ensures hasCallback ==> |v.nodes| == |Trees.PostOrder(Model())| == Size(Model())
      ensures hasCallback ==> forall i :: 0 <= i < |v.nodes| ==>
        v.nodes[i] in Repr() && v.nodes[i].value == Trees.PostOrder(Model())[i]
      ensures multiset(Trees.PostOrder(Model())) == multiset(Trees.InOrder(Model()))
    {
      PostOrderNodeValues(shape);
      PostOrderAt(hasCallback, root, shape)
    }

    // -------------------------------------------------------------------
    // Measurements (BST.js:237-283).

    /** height (BST.js:237-244) of node, the root of s. */
    static function HeightAt(node: Node?, ghost s: Shape): (h: int)
      requires Linked(s) && node == RootOf(s)
      reads NodesOf(s)
      ensures h == Trees.Height(Abs(s))
      decreases s
    {
      if node == null then -1
      else Max(HeightAt(node.left, s.left), HeightAt(node.right, s.right)) + 1
    }

    /** isBalanced's helper (BST.js:267-280) at node, the root of s: the
        height of a balanced subtree, NotBalanced for any other. */
    static function BalancedHeight(node: Node?, ghost s: Shape): (h: int)
      requires Linked(s) && node == RootOf(s)
      reads NodesOf(s)
      ensures h == NotBalanced || h == Trees.Height(Abs(s))
      ensures h != NotBalanced <==> Balanced(Abs(s))
      decreases s
    {
      if node == null then -1
      else
        var lh := BalancedHeight(node.left, s.left);
        if lh == NotBalanced then NotBalanced
        else
          var rh := BalancedHeight(node.right, s.right);
          if rh == NotBalanced then NotBalanced
          else if AbsInt(lh - rh) > 1 then NotBalanced
          else Max(lh, rh) + 1
    }

    /** isBalanced (BST.js:264-283) of node, the root of s. */
    static function IsBalancedAt(node: Node?, ghost s: Shape): (b: bool)
      requires Linked(s) && node == RootOf(s)
      reads NodesOf(s)
      ensures b <==> Balanced(Abs(s))
    {
      BalancedHeight(node, s) != NotBalanced
    }

    /** height, depth and isBalanced called on the root. */
    function Height(): (h: int)
      requires Valid()
      reads this, Repr()
      ensures h == Trees.Height(Model())
      ensures h == -1 <==> root == null
    {
      AbsKeys(shape);
      HeightAt(root, shape)
    }

    function IsBalanced(): (b: bool)
      requires Valid()
      reads this, Repr()
      ensures b <==> Balanced(Model())
    {
      IsBalancedAt(root, shape)
    }

    /** depth (BST.js:246-262): edges walked down the search path for the
        key node holds until a node holding it is met; -1 when the walk
        falls off the tree. node itself need not be in the tree. */
    method Depth(node: Node) returns (d: int)
      requires Valid()
      ensures d == SearchTree.Depth(Model(), node.value)
      ensures d >= 0 <==> node.value in Keys(Model())
      ensures d <= Trees.Height(Model())
    {
      DepthCorrect(Model(), node.value, 0);
      var temp := root;
      var depth := 0;
      ghost var sub := shape;
      while temp != null
        invariant Linked(sub) && temp == RootOf(sub) && depth >= 0
        invariant SearchTree.Depth(Model(), node.value) ==
          (if SearchTree.Depth(Abs(sub), node.value) < 0 then -1 else depth + SearchTree.Depth(Abs(sub), node.value))
        decreases Size(sub)
      {
        if node.value == temp.value {
          return depth;
        } else if node.value < temp.value {
          temp := temp.left;
          sub := sub.left;
        } else {
          temp := temp.right;
          sub := sub.right;
        }
        depth := depth + 1;
      }
      return -1;
    }

    // -------------------------------------------------------------------
    // Rebalancing (BST.js:285-290).

    /** The callback of rebalance, `(node) => newTree.push(node.value)`,
        applied to each node the traversal visits, in turn. */
    static method PushValues(nodes: seq<Node>) returns (newTree: seq<int>)
      ensures |newTree| == |nodes|
      ensures forall i :: 0 <= i < |nodes| ==> newTree[i] == nodes[i].value
    {
      newTree := [];
      var i := 0;
      while i < |nodes|
        invariant 0 <= i <= |nodes| && |newTree| == i
        invariant forall j :: 0 <= j < i ==> newTree[j] == nodes[j].value
      {
        newTree := newTree + [nodes[i].value];
        i := i + 1;
      }
    }

    /** The first half of rebalance: an in-order traversal whose callback
        pushes each node's value to a fresh array. */
    method CollectInOrder() returns (newTree: seq<int>)
      requires Valid()
      ensures newTree == Trees.InOrder(Model())
    {
      var v := InOrder(true);
      var nodes := v.nodes;
      InOrderNodeValues(shape);
      ghost var keys := Trees.InOrder(Model());
      ghost var cells := Trees.InOrder(shape);
      assert nodes == NodesIn(cells);
      newTree := PushValues(nodes);
      forall i | 0 <= i < |keys| ensures newTree[i] == keys[i] {
        assert nodes[i] == cells[i].node;
      }
    }

    /** rebalance: collect the values in order, then rebuild from them. */
    method Rebalance()
      requires Valid()
      modifies this
      ensures Valid()
      ensures Trees.InOrder(Model()) == Trees.InOrder(old(Model()))
      ensures Balanced(Model()) && Build.MinimalOfSize(Model(), Size(old(Model())))
      ensures fresh(Repr())
    {
      var newTree := CollectInOrder();
      BstIffAscending(Model());
      InOrderElements(Model());
      Build.BuildSortedCorrect(newTree);
      var r;
      ghost var s;
      r, s := BuildTree(newTree, 0, |newTree| - 1);
      root := r;
      shape := s;
    }
  }
}

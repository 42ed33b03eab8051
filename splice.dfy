/** What deletion does to the shape of the tree (BST.js:75-158): a node
    with at most one child is spliced out, its parent (or the root field)
    taking the child; a node with two children takes the key of its
    in-order successor, the leftmost node of its right subtree, which is
    spliced out in turn. Each lemma states one fact about the shape before
    or after; the heap methods of BinarySearchTree put them together. */
module Splice {
  import opened Trees
  import opened SearchTree
  import opened Heap

  // ---------------------------------------------------------------------
  // The shapes after a deletion.

  /** The subtree that takes the place of a node with at most one child:
      that child, or the empty tree. */
  function Spliced(sub: Shape): Shape
    requires sub.Branch?
  {
    if sub.left.Branch? then sub.left else sub.right
  }

  /** The node of sub keeps its place and takes the successor's key; the
      successor, the root of ssub at the end of the left walk spath, gives
      way to its right subtree. */
  function Promoted(sub: Shape, spath: Path, ssub: Shape): Shape
    requires sub.Branch? && ssub.Branch?
  {
    Branch(sub.left, Cell(sub.key.node, ssub.key.key), Plug(spath, ssub.right))
  }

  // ---------------------------------------------------------------------
  // Facts about a path.

  lemma {:induction false} PathNodesHas(path: Path, i: nat)
    requires i < |path|
    ensures path[i].key.node in PathNodes(path)
    ensures NodesOf(Sibling(path[i])) <= PathNodes(path)
    decreases |path|
  {
    if i > 0 {
      PathNodesHas(path[1..], i - 1);
    }
  }

  lemma RootIn(s: Shape)
    ensures RootOf(s) != null ==> RootOf(s) in NodesOf(s)
  {
  }

  /** A path whose innermost node has just been pointed at t, the rest of
      the path linked as before, links the whole tree. */
  lemma Relink(path: Path, t: Shape)
    requires path != [] && Linked(t)
    requires var f := path[0];
      var n := f.key.node;
      n.value == f.key.key &&
      (if f.WentLeft? then n.left == RootOf(t) && n.right == RootOf(f.right)
       else n.left == RootOf(f.left) && n.right == RootOf(t)) &&
      Linked(Sibling(f)) && PathLinked(path[1..], n)
    ensures Linked(Plug(path, t))
  {
    LinkedPlug(path, t);
  }

  /** Facts about the node found at the end of a search path in a linked
      tree without repeated nodes: the path and the subtree are linked and
      disjoint; the node is the root exactly when the path is empty; and its
      parent's left link refers to it exactly when the last step went
      left. */
  lemma Found(path: Path, sub: Shape)
    requires sub.Branch? && Linked(Plug(path, sub)) && Distinct(Plug(path, sub))
    ensures PathLinked(path, sub.key.node) && Linked(sub)
    ensures PathDistinct(path) && Distinct(sub) && NodesOf(sub) !! PathNodes(path)
    ensures NodesOf(Plug(path, sub)) == PathNodes(path) + NodesOf(sub)
    ensures RootOf(Plug(path, sub)) == sub.key.node <==> path == []
    ensures path != [] ==> (path[0].key.node.left == sub.key.node <==> path[0].WentLeft?)
  {
    LinkedPlug(path, sub);
    DistinctPlug(path, sub);
    NodesOfPlug(path, sub);
    RootOfPlug(path, sub);
    if path != [] {
      PathNodesHas(path, |path| - 1);
      PathNodesHas(path, 0);
      RootIn(Sibling(path[0]));
    }
  }

  // ---------------------------------------------------------------------
  // Replacing the subtree at the end of a search path.

  /** A subtree below a search path for v, replaced by one that is the
      deletion of v from it and uses no node from outside it, makes the
      whole tree the deletion of v from the old one, still a search tree
      without repeated nodes. */
  lemma ReplacedAlongPath(path: Path, sub: Shape, sub': Shape, v: int)
    requires IsBST(Abs(Plug(path, sub))) && OnSearchPath(AbsPath(path), v)
    requires Distinct(Plug(path, sub)) && Distinct(sub') && NodesOf(sub') <= NodesOf(sub)
    requires Abs(sub') == SearchTree.Delete(Abs(sub), v)
    ensures Abs(Plug(path, sub')) == SearchTree.Delete(Abs(Plug(path, sub)), v)
    ensures IsBST(Abs(Plug(path, sub')))
    ensures Distinct(Plug(path, sub')) && NodesOf(Plug(path, sub')) <= NodesOf(Plug(path, sub))
  {
    AbsPlug(path, sub);
    AbsPlug(path, sub');
    DeleteAlongPath(AbsPath(path), Abs(sub), v);
    DeleteCorrect(Abs(Plug(path, sub)), v);
    DistinctPlug(path, sub);
    DistinctPlug(path, sub');
    NodesOfPlug(path, sub);
    NodesOfPlug(path, sub');
  }

  /** The parent at the head of a search path is none of the nodes whose
      links its update must leave alone. */
  lemma ParentFrame(path: Path, sub: Shape)
    requires path != [] && PathDistinct(path) && NodesOf(sub) !! PathNodes(path)
    ensures path[0].key.node in PathNodes(path)
    ensures path[0].key.node !in NodesOf(sub)
    ensures path[0].key.node !in NodesOf(Sibling(path[0]))
    ensures path[0].key.node !in PathNodes(path[1..])
  {
  }

  /** One level of the recursive deletion: below a cell whose key sends v
      toward t, replacing t by t with v deleted deletes v from the whole. */
  lemma DeletedBelow(f: Frame<Cell>, t: Shape, t': Shape, v: int)
    requires Toward(AbsFrame(f), v)
    requires Abs(t') == SearchTree.Delete(Abs(t), v)
    ensures Abs(Attach(f, t')) == SearchTree.Delete(Abs(Attach(f, t)), v)
  {
    AbsAttach(f, t);
    AbsAttach(f, t');
  }

  // ---------------------------------------------------------------------
  // Splicing out a node with at most one child.

  /** Splicing out the node of sub, which holds v and lacks a child, is
      deleting v from sub. */
  lemma SplicedCorrect(sub: Shape, v: int)
    requires sub.Branch? && sub.key.key == v && (sub.left.Leaf? || sub.right.Leaf?) && Distinct(sub)
    ensures Abs(Spliced(sub)) == SearchTree.Delete(Abs(sub), v)
    ensures Distinct(Spliced(sub)) && NodesOf(Spliced(sub)) <= NodesOf(sub) - {sub.key.node}
  {
    AbsKeys(sub.left);
  }

  // ---------------------------------------------------------------------
  // Promoting the successor of a node with two children.

  /** Forgetting the nodes keeps a left walk a left walk. */
  lemma {:induction false} AllLeftAbs(spath: Path)
    requires AllLeft(spath)
    ensures AllLeft(AbsPath(spath))
  {
  }

  /** One more left step of the walk to the successor. */
  lemma LeftStep(spath: Path, ssub: Shape)
    requires AllLeft(spath) && ssub.Branch?
    ensures AllLeft([WentLeft(ssub.key, ssub.right)] + spath)
    ensures Plug([WentLeft(ssub.key, ssub.right)] + spath, ssub.left) == Plug(spath, ssub)
  {
    var p := [WentLeft(ssub.key, ssub.right)] + spath;
    assert p[1..] == spath;
  }

  /** Where the left walk from the right child stops, at a node without a
      left child, sits the least key of the right subtree, and splicing
      that node out is DeleteMin. */
  lemma SuccessorIsMin(spath: Path, ssub: Shape)
    requires AllLeft(spath) && ssub.Branch? && ssub.left.Leaf?
    ensures MinKey(Abs(Plug(spath, ssub))) == ssub.key.key
    ensures DeleteMin(Abs(Plug(spath, ssub))) == Abs(Plug(spath, ssub.right))
  {
    AllLeftAbs(spath);
    AbsPlug(spath, ssub);
    AbsPlug(spath, ssub.right);
    LeftmostAlongPath(AbsPath(spath), Abs(ssub));
  }

  /** Copying the successor's key into the node of sub and splicing the
      successor out is deleting the node's key from sub. */
  lemma PromotedAbs(sub: Shape, spath: Path, ssub: Shape)
    requires sub.Branch? && sub.left.Branch? && sub.right.Branch?
    requires sub.right == Plug(spath, ssub) && AllLeft(spath) && ssub.Branch? && ssub.left.Leaf?
    ensures Abs(Promoted(sub, spath, ssub)) == SearchTree.Delete(Abs(sub), sub.key.key)
  {
    SuccessorIsMin(spath, ssub);
    AbsKeys(sub.left);
    AbsKeys(sub.right);
  }

  /** The nodes of the walk to the successor: the successor lies below the
      walk, and the subtree that replaces it does too. */
  lemma SuccessorNodes(spath: Path, ssub: Shape)
    requires ssub.Branch? && Distinct(Plug(spath, ssub))
    ensures Distinct(Plug(spath, ssub.right))
    ensures NodesOf(Plug(spath, ssub)) == PathNodes(spath) + NodesOf(ssub)
    ensures NodesOf(Plug(spath, ssub.right)) <= NodesOf(Plug(spath, ssub)) - {ssub.key.node}
    ensures PathNodes(spath) !! NodesOf(ssub) && PathDistinct(spath)
    ensures spath != [] ==> spath[0].key.node in PathNodes(spath)
    ensures spath != [] ==> spath[0].key.node !in NodesOf(Sibling(spath[0])) + PathNodes(spath[1..])
  {
    DistinctPlug(spath, ssub);
    DistinctPlug(spath, ssub.right);
    NodesOfPlug(spath, ssub);
    NodesOfPlug(spath, ssub.right);
  }

  /** What the walk to the successor finds in a linked tree without
      repeated nodes, in the form the writes of the promotion need. First
      the links: node's left child is not the successor, its right child
      or the end of the walk leads to it, and the successor's parent links
      left at it when the walk went down at all. */
  lemma UnhookLinks(sub: Shape, spath: Path, ssub: Shape)
    requires sub.Branch? && sub.left.Branch? && Linked(sub) && Distinct(sub)
    requires sub.right == Plug(spath, ssub) && ssub.Branch? && AllLeft(spath)
    ensures var node := sub.key.node;
      Linked(sub.left) && Linked(ssub) &&
      node.left == RootOf(sub.left) && node.left != ssub.key.node &&
      (spath == [] ==> node.right == ssub.key.node) &&
      (spath != [] ==>
        spath[0].WentLeft? && PathLinked(spath, ssub.key.node) &&
        node.right == RootOf(Plug(spath, ssub.right)))
  {
    SuccessorNodes(spath, ssub);
    LinkedPlug(spath, ssub);
    RootOfPlug(spath, ssub);
    RootOfPlug(spath, ssub.right);
  }

  lemma SubsetTrans(a: set<Node>, b: set<Node>, c: set<Node>)
    requires a <= b && b <= c
    ensures a <= c
  {
  }

  lemma OutsideSubset(x: Node, a: set<Node>, b: set<Node>)
    requires a <= b && x !in b
    ensures x !in a
  {
  }

  lemma NodesBelow(t: Shape)
    requires t.Branch?
    ensures NodesOf(t.left) <= NodesOf(t) && NodesOf(t.right) <= NodesOf(t) && t.key.node in NodesOf(t)
  {
  }

  lemma PathFront(path: Path)
    requires path != []
    ensures path[0].key.node in PathNodes(path)
    ensures NodesOf(Sibling(path[0])) <= PathNodes(path) && PathNodes(path[1..]) <= PathNodes(path)
  {
  }

  /** Then the frame: neither node written lies among the nodes that must
      stay linked. The walk is given by its nodes: those of the right
      subtree are those of the walk and of the subtree ssub it reaches. */
  lemma UnhookFrame(sub: Shape, spath: Path, ssub: Shape, successorParent: Node)
    requires sub.Branch? && Distinct(sub) && ssub.Branch?
    requires NodesOf(sub.right) == PathNodes(spath) + NodesOf(ssub)
    requires PathDistinct(spath) && NodesOf(ssub) !! PathNodes(spath)
    requires spath != [] ==> spath[0].WentLeft?
    requires successorParent == if spath == [] then sub.key.node else spath[0].key.node
    ensures successorParent in NodesOf(sub)
    ensures var node := sub.key.node;
      node != ssub.key.node &&
      node !in NodesOf(sub.left) && node !in NodesOf(ssub.right) &&
      successorParent !in NodesOf(sub.left) && successorParent !in NodesOf(ssub.right) &&
      (spath != [] ==>
        node != successorParent &&
        node !in NodesOf(spath[0].right) && node !in PathNodes(spath[1..]) &&
        successorParent !in NodesOf(spath[0].right) && successorParent !in PathNodes(spath[1..]))
  {
    var node := sub.key.node;
    var below := NodesOf(sub.right);
    NodesBelow(sub);
    NodesBelow(ssub);
    SubsetTrans(NodesOf(ssub.right), NodesOf(ssub), below);
    OutsideSubset(node, NodesOf(ssub.right), below);
    if spath != [] {
      var p := spath[0].key.node;
      PathFront(spath);
      assert p !in NodesOf(ssub);
      OutsideSubset(p, NodesOf(ssub.right), NodesOf(ssub));
      SubsetTrans(NodesOf(spath[0].right), PathNodes(spath), below);
      SubsetTrans(PathNodes(spath[1..]), PathNodes(spath), below);
      OutsideSubset(node, NodesOf(spath[0].right), below);
      OutsideSubset(node, PathNodes(spath[1..]), below);
    }
  }

  lemma PromotedNodes(sub: Shape, spath: Path, ssub: Shape)
    requires sub.Branch? && Distinct(sub)
    requires sub.right == Plug(spath, ssub) && ssub.Branch?
    ensures Distinct(Promoted(sub, spath, ssub))
    ensures NodesOf(Promoted(sub, spath, ssub)) <= NodesOf(sub)
  {
    SuccessorNodes(spath, ssub);
  }
}

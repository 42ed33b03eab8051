/** The heap side of BST.js: the Node class (BST.js:1-7) and the ghost
    "shape" that says which nodes form a tree. A shape is a tree value whose
    cells pair each node with the key it holds; Linked ties the links and
    values in the heap to a shape, Distinct says no node occurs twice, and
    Abs forgets the nodes, leaving the abstract tree of keys. The zipper of
    the Trees module, over shapes, names the position a cursor has reached
    in the middle of a walk down the tree. */
module Heap {
  import opened Trees
  import opened SearchTree

  class Node {
    var value: int
    var left: Node?
    var right: Node?

    constructor(value: int)
      ensures this.value == value && left == null && right == null
    {
      this.value := value;
      left := null;
      right := null;
    }
  }

  /** A node together with the key it holds. */
  datatype Cell = Cell(node: Node, key: int)

  type Shape = Tree<Cell>

  type Path = seq<Frame<Cell>>

  /** The reference that names a shape: null for the empty tree. */
  function RootOf(s: Shape): Node?
  {
    if s.Leaf? then null else s.key.node
  }

  function NodesOf(s: Shape): set<Node>
  {
    match s
    case Leaf => {}
    case Branch(l, c, r) => NodesOf(l) + {c.node} + NodesOf(r)
  }

  /** Every node of s holds its cell's key and points at the roots of its
      two subshapes. */
  ghost predicate Linked(s: Shape)
    reads NodesOf(s)
  {
    match s
    case Leaf => true
    case Branch(l, c, r) =>
      c.node.value == c.key && c.node.left == RootOf(l) && c.node.right == RootOf(r) &&
      Linked(l) && Linked(r)
  }

  /** No node is shared between two positions of s. */
  predicate Distinct(s: Shape)
  {
    match s
    case Leaf => true
    case Branch(l, c, r) =>
      Distinct(l) && Distinct(r) &&
      c.node !in NodesOf(l) && c.node !in NodesOf(r) && NodesOf(l) !! NodesOf(r)
  }

  /** The tree of keys a shape stands for. */
  function Abs(s: Shape): Tree<int>
  {
    match s
    case Leaf => Leaf
    case Branch(l, c, r) => Branch(Abs(l), c.key, Abs(r))
  }

  /** The nodes of a shape one holds are all allocated already, so a node
      allocated later is none of them. */
  lemma {:induction false} NodesAllocated(s: Shape)
    ensures forall n :: n in NodesOf(s) ==> allocated(n)
  {
    match s
    case Leaf =>
    case Branch(l, _, r) =>
      NodesAllocated(l);
      NodesAllocated(r);
  }

  /** A shape stays linked while none of its nodes changes. */
  twostate lemma {:induction false} LinkedKept(s: Shape)
    requires forall n :: n in NodesOf(s) ==> old(allocated(n))
    requires old(Linked(s)) && unchanged(NodesOf(s))
    ensures Linked(s)
  {
    match s
    case Leaf =>
    case Branch(l, c, r) =>
      assert NodesOf(s) == NodesOf(l) + {c.node} + NodesOf(r);
      LinkedKept(l);
      LinkedKept(r);
  }

  /** A fresh node over two disjoint linked shapes, pointing at their
      roots, forms a linked shape with no node repeated. */
  lemma Join(sl: Shape, c: Cell, sr: Shape)
    requires Linked(sl) && Linked(sr) && Distinct(sl) && Distinct(sr)
    requires NodesOf(sl) !! NodesOf(sr) && c.node !in NodesOf(sl) && c.node !in NodesOf(sr)
    requires c.node.value == c.key && c.node.left == RootOf(sl) && c.node.right == RootOf(sr)
    ensures Linked(Branch(sl, c, sr)) && Distinct(Branch(sl, c, sr))
  {
  }

  lemma {:induction false} AbsKeys(s: Shape)
    ensures Size(Abs(s)) == Size(s)
    ensures Abs(s).Leaf? <==> s.Leaf?
    ensures RootOf(s) == null <==> s.Leaf?
  {
    match s
    case Leaf =>
    case Branch(l, _, r) =>
      AbsKeys(l);
      AbsKeys(r);
  }

  // ---------------------------------------------------------------------
  // Sequences of visited cells.

  function NodesIn(cs: seq<Cell>): (ns: seq<Node>)
    ensures |ns| == |cs| && forall i :: 0 <= i < |cs| ==> ns[i] == cs[i].node
  {
    if cs == [] then [] else [cs[0].node] + NodesIn(cs[1..])
  }

  function KeysIn(cs: seq<Cell>): (ks: seq<int>)
    ensures |ks| == |cs| && forall i :: 0 <= i < |cs| ==> ks[i] == cs[i].key
  {
    if cs == [] then [] else [cs[0].key] + KeysIn(cs[1..])
  }

  lemma {:induction false} KeysInAppend(a: seq<Cell>, b: seq<Cell>)
    ensures KeysIn(a + b) == KeysIn(a) + KeysIn(b)
  {
    if a == [] {
      assert a + b == b;
    } else {
      assert (a + b)[0] == a[0];
      assert (a + b)[1..] == a[1..] + b;
      KeysInAppend(a[1..], b);
    }
  }

  lemma {:induction false} NodesInAppend(a: seq<Cell>, b: seq<Cell>)
    ensures NodesIn(a + b) == NodesIn(a) + NodesIn(b)
  {
    if a == [] {
      assert a + b == b;
    } else {
      assert (a + b)[0] == a[0];
      assert (a + b)[1..] == a[1..] + b;
      NodesInAppend(a[1..], b);
    }
  }

  /** Every cell of a shape names one of its nodes, and in a linked shape
      that node holds the cell's key. */
  lemma {:induction false} CellsOf(s: Shape)
    ensures forall c :: c in Keys(s) ==> c.node in NodesOf(s)
    ensures Linked(s) ==> forall c :: c in Keys(s) ==> c.node.value == c.key
  {
    match s
    case Leaf =>
    case Branch(l, _, r) =>
      CellsOf(l);
      CellsOf(r);
  }

  /** The keys met by an in-order walk over a shape are the in-order
      sequence of its abstract tree. */
  lemma {:induction false} KeysInOrder(s: Shape)
    ensures KeysIn(InOrder(s)) == InOrder(Abs(s))
  {
    match s
    case Leaf =>
    case Branch(l, c, r) =>
      KeysInOrder(l);
      KeysInOrder(r);
      KeysInAppend(InOrder(l) + [c], InOrder(r));
      KeysInAppend(InOrder(l), [c]);
  }

  /** The nodes in in-order hold, one by one, the keys of the in-order
      traversal of the abstract tree. */
  lemma InOrderNodeValues(s: Shape)
    requires Linked(s)
    ensures |InOrder(s)| == |InOrder(Abs(s))|
    ensures forall i :: 0 <= i < |InOrder(s)| ==> InOrder(s)[i].node in NodesOf(s)
    ensures forall i :: 0 <= i < |InOrder(s)| ==> InOrder(s)[i].node.value == InOrder(Abs(s))[i]
  {
    KeysInOrder(s);
    CellsOf(s);
    InOrderCells(s);
    forall i | 0 <= i < |InOrder(s)|
      ensures InOrder(s)[i].node in NodesOf(s) && InOrder(s)[i].node.value == InOrder(Abs(s))[i]
    {
      assert KeysIn(InOrder(s))[i] == InOrder(s)[i].key;
    }
  }

  /** In a linked shape whose keys form a search tree, the nodes in
      in-order are nodes of the shape and hold strictly ascending values. */
  lemma InOrderValues(s: Shape)
    requires Linked(s) && IsBST(Abs(s))
    ensures |InOrder(s)| == Size(Abs(s))
    ensures forall i :: 0 <= i < |InOrder(s)| ==> InOrder(s)[i].node in NodesOf(s)
    ensures forall i, j :: 0 <= i < j < |InOrder(s)| ==> InOrder(s)[i].node.value < InOrder(s)[j].node.value
  {
    InOrderNodeValues(s);
    InOrderCells(s);
    BstIffAscending(Abs(s));
  }

  lemma InOrderCells(s: Shape)
    ensures |InOrder(s)| == Size(Abs(s))
    ensures forall i :: 0 <= i < |InOrder(s)| ==> InOrder(s)[i] in Keys(s)
  {
    InOrderElements(s);
    AbsKeys(s);
    forall i | 0 <= i < |InOrder(s)| ensures InOrder(s)[i] in Keys(s) {
      assert InOrder(s)[i] in InOrder(s);
    }
  }

  /** Likewise for the pre-order walk. */
  lemma {:induction false} KeysPreOrder(s: Shape)
    ensures KeysIn(PreOrder(s)) == PreOrder(Abs(s))
  {
    match s
    case Leaf =>
    case Branch(l, c, r) =>
      KeysPreOrder(l);
      KeysPreOrder(r);
      KeysInAppend([c] + PreOrder(l), PreOrder(r));
      KeysInAppend([c], PreOrder(l));
  }

  /** Likewise for the post-order walk. */
  lemma {:induction false} KeysPostOrder(s: Shape)
    ensures KeysIn(PostOrder(s)) == PostOrder(Abs(s))
  {
    match s
    case Leaf =>
    case Branch(l, c, r) =>
      KeysPostOrder(l);
      KeysPostOrder(r);
      KeysInAppend(PostOrder(l) + PostOrder(r), [c]);
      KeysInAppend(PostOrder(l), PostOrder(r));
  }

  /** The nodes in pre-order are nodes of the shape holding, one by one,
      the keys of the pre-order traversal of the abstract tree; that
      traversal lists the same keys as in-order, each as often. */
  lemma PreOrderNodeValues(s: Shape)
    requires Linked(s)
    ensures |PreOrder(s)| == |PreOrder(Abs(s))| == Size(Abs(s))
    ensures forall i :: 0 <= i < |PreOrder(s)| ==>
      PreOrder(s)[i].node in NodesOf(s) && PreOrder(s)[i].node.value == PreOrder(Abs(s))[i]
    ensures multiset(PreOrder(Abs(s))) == multiset(InOrder(Abs(s)))
  {
    KeysPreOrder(s);
    CellsOf(s);
    InOrderCells(s);
    TraversalsAgree(s);
    TraversalsAgree(Abs(s));
    InOrderElements(s);
    assert |PreOrder(s)| == |multiset(PreOrder(s))| == |multiset(InOrder(s))| == |InOrder(s)|;
    forall i | 0 <= i < |PreOrder(s)|
      ensures PreOrder(s)[i].node in NodesOf(s) && PreOrder(s)[i].node.value == PreOrder(Abs(s))[i]
    {
      var c := PreOrder(s)[i];
      assert c in multiset(PreOrder(s));
      assert c in InOrder(s);
      assert KeysIn(PreOrder(s))[i] == c.key;
    }
  }

  /** Likewise for post-order. */
  lemma PostOrderNodeValues(s: Shape)
    requires Linked(s)
    ensures |PostOrder(s)| == |PostOrder(Abs(s))| == Size(Abs(s))
    ensures forall i :: 0 <= i < |PostOrder(s)| ==>
      PostOrder(s)[i].node in NodesOf(s) && PostOrder(s)[i].node.value == PostOrder(Abs(s))[i]
    ensures multiset(PostOrder(Abs(s))) == multiset(InOrder(Abs(s)))
  {
    KeysPostOrder(s);
    CellsOf(s);
    InOrderCells(s);
    TraversalsAgree(s);
    TraversalsAgree(Abs(s));
    InOrderElements(s);
    assert |PostOrder(s)| == |multiset(PostOrder(s))| == |multiset(InOrder(s))| == |InOrder(s)|;
    forall i | 0 <= i < |PostOrder(s)|
      ensures PostOrder(s)[i].node in NodesOf(s) && PostOrder(s)[i].node.value == PostOrder(Abs(s))[i]
    {
      var c := PostOrder(s)[i];
      assert c in multiset(PostOrder(s));
      assert c in InOrder(s);
      assert KeysIn(PostOrder(s))[i] == c.key;
    }
  }

  // ---------------------------------------------------------------------
  // The queue of levelOrder (BST.js:194-207).

  /** ns, the queued nodes, are the roots of the non-empty shapes qs. */
  predicate Mirrors(ns: seq<Node>, qs: seq<Shape>)
  {
    |ns| == |qs| && forall i :: 0 <= i < |qs| ==> qs[i].Branch? && ns[i] == qs[i].key.node
  }

  /** The queue after `if (n) queue.push(n)`. */
  function Enqueue(q: seq<Node>, n: Node?): seq<Node>
  {
    if n == null then q else q + [n]
  }

  /** Shifting the front node and pushing its non-null children mirrors
      replacing the front shape by its non-empty children. */
  lemma MirrorsStep(ns: seq<Node>, qs: seq<Shape>, l: Node?, r: Node?)
    requires Mirrors(ns, qs) && qs != []
    requires l == RootOf(qs[0].left) && r == RootOf(qs[0].right)
    ensures Mirrors(Enqueue(Enqueue(ns[1..], l), r), qs[1..] + Children(qs[0]))
  {
    var x := qs[0];
    assert Children(x) == NonEmpty(x.left) + NonEmpty(x.right);
    var ns', qs' := Enqueue(Enqueue(ns[1..], l), r), qs[1..] + Children(x);
    assert |ns'| == |qs'|;
    forall i | 0 <= i < |qs'| ensures qs'[i].Branch? && ns'[i] == qs'[i].key.node {
      if i < |qs| - 1 {
        assert qs'[i] == qs[i + 1] && ns'[i] == ns[i + 1];
      }
    }
  }

  /** Visiting the front node of the queue: the nodes still to come are
      that node and then those of the queue with the front shape replaced
      by its children, whose total size is one less. */
  lemma VisitStep(qs: seq<Shape>)
    requires qs != [] && qs[0].Branch?
    ensures NodesIn(Bfs(qs)) == [qs[0].key.node] + NodesIn(Bfs(qs[1..] + Children(qs[0])))
    ensures SizeSum(qs[1..] + Children(qs[0])) < SizeSum(qs)
  {
    var x := qs[0];
    BfsBranchStep(qs);
    NodesInAppend([x.key], Bfs(qs[1..] + Children(x)));
    SizeSumAppend(qs[1..], Children(x));
    ChildrenSize(x);
  }

  /** Every shape queued stays linked when the front one is replaced by its
      children. */
  lemma LinkedQueueStep(qs: seq<Shape>)
    requires qs != [] && forall i :: 0 <= i < |qs| ==> Linked(qs[i])
    ensures forall i :: 0 <= i < |qs[1..] + Children(qs[0])| ==> Linked((qs[1..] + Children(qs[0]))[i])
  {
    var x := qs[0];
    assert Linked(x);
    var qs' := qs[1..] + Children(x);
    forall i | 0 <= i < |qs'| ensures Linked(qs'[i]) {
      if i < |qs| - 1 {
        assert qs'[i] == qs[i + 1];
      }
    }
  }

  // ---------------------------------------------------------------------
  // Zipper over shapes.

  /** The subtree a frame keeps aside: the one the walk did not enter. */
  function Sibling(f: Frame<Cell>): Shape
  {
    if f.WentLeft? then f.right else f.left
  }

  function PathNodes(path: Path): set<Node>
    decreases |path|
  {
    if path == [] then {} else {path[0].key.node} + NodesOf(Sibling(path[0])) + PathNodes(path[1..])
  }

  /** The frames of path are linked in the heap, the innermost one to
      child. */
  ghost predicate PathLinked(path: Path, child: Node?)
    reads PathNodes(path)
    decreases |path|
  {
    path == [] ||
    var f := path[0];
    var n := f.key.node;
    n.value == f.key.key &&
    (if f.WentLeft? then n.left == child && n.right == RootOf(f.right)
     else n.left == RootOf(f.left) && n.right == child) &&
    Linked(Sibling(f)) && PathLinked(path[1..], n)
  }

  predicate PathDistinct(path: Path)
    decreases |path|
  {
    path == [] ||
    var f := path[0];
    Distinct(Sibling(f)) && f.key.node !in NodesOf(Sibling(f)) &&
    ({f.key.node} + NodesOf(Sibling(f))) !! PathNodes(path[1..]) &&
    PathDistinct(path[1..])
  }

  function AbsFrame(f: Frame<Cell>): Frame<int>
  {
    match f
    case WentLeft(c, r) => WentLeft(c.key, Abs(r))
    case WentRight(l, c) => WentRight(Abs(l), c.key)
  }

  function AbsPath(path: Path): (p: seq<Frame<int>>)
    ensures |p| == |path| && forall i :: 0 <= i < |path| ==> p[i] == AbsFrame(path[i])
  {
    if path == [] then [] else [AbsFrame(path[0])] + AbsPath(path[1..])
  }

  lemma {:induction false} NodesOfPlug(path: Path, s: Shape)
    ensures NodesOf(Plug(path, s)) == PathNodes(path) + NodesOf(s)
    decreases |path|
  {
    if path != [] {
      NodesOfPlug(path[1..], Attach(path[0], s));
    }
  }

  lemma {:induction false} LinkedPlug(path: Path, s: Shape)
    ensures Linked(Plug(path, s)) <==> PathLinked(path, RootOf(s)) && Linked(s)
    decreases |path|
  {
    if path != [] {
      LinkedPlug(path[1..], Attach(path[0], s));
    }
  }

  lemma {:induction false} DistinctPlug(path: Path, s: Shape)
    ensures Distinct(Plug(path, s)) <==>
      PathDistinct(path) && Distinct(s) && NodesOf(s) !! PathNodes(path)
    decreases |path|
  {
    if path != [] {
      var a := Attach(path[0], s);
      DistinctPlug(path[1..], a);
      assert NodesOf(a) == NodesOf(s) + {path[0].key.node} + NodesOf(Sibling(path[0]));
    }
  }

  lemma {:induction false} AbsPlug(path: Path, s: Shape)
    ensures Abs(Plug(path, s)) == Plug(AbsPath(path), Abs(s))
    decreases |path|
  {
    if path != [] {
      AbsPlug(path[1..], Attach(path[0], s));
      assert AbsPath(path)[1..] == AbsPath(path[1..]);
    }
  }

  /** One more step down: the frame just passed becomes the innermost. */
  lemma StepDown(path: Path, f: Frame<Cell>, t: Shape, v: int)
    requires OnSearchPath(AbsPath(path), v) && Toward(AbsFrame(f), v)
    ensures Plug([f] + path, t) == Plug(path, Attach(f, t))
    ensures OnSearchPath(AbsPath([f] + path), v)
  {
    assert ([f] + path)[1..] == path;
  }

  /** sub with the empty slot on one side of its root filled by a leaf
      holding cell c. */
  function Grow(sub: Shape, c: Cell, onLeft: bool): Shape
    requires sub.Branch?
  {
    var leaf := Branch(Leaf, c, Leaf);
    if onLeft then Branch(leaf, sub.key, sub.right) else Branch(sub.left, sub.key, leaf)
  }

  /** What hanging a leaf on the node of sub relies on: the links around
      that node, and that the node occurs nowhere else in the tree. */
  lemma AroundNode(path: Path, sub: Shape, onLeft: bool)
    requires sub.Branch? && Linked(Plug(path, sub)) && Distinct(Plug(path, sub))
    ensures PathLinked(path, sub.key.node) && sub.key.node.value == sub.key.key
    ensures if onLeft then sub.key.node.right == RootOf(sub.right) && Linked(sub.right)
            else sub.key.node.left == RootOf(sub.left) && Linked(sub.left)
    ensures var others := PathNodes(path) + NodesOf(if onLeft then sub.right else sub.left);
      sub.key.node !in others && others <= NodesOf(Plug(path, sub))
  {
    LinkedPlug(path, sub);
    DistinctPlug(path, sub);
    NodesOfPlug(path, sub);
  }

  /** The links left behind when the node of sub takes a new leaf c on
      one side: the grown shape is linked again. */
  lemma LinkedGrow(path: Path, sub: Shape, c: Cell, onLeft: bool)
    requires sub.Branch? && PathLinked(path, sub.key.node)
    requires c.node.value == c.key && c.node.left == null && c.node.right == null
    requires sub.key.node.value == sub.key.key
    requires if onLeft then sub.key.node.left == c.node && sub.key.node.right == RootOf(sub.right) && Linked(sub.right)
             else sub.key.node.right == c.node && sub.key.node.left == RootOf(sub.left) && Linked(sub.left)
    ensures Linked(Plug(path, Grow(sub, c, onLeft)))
  {
    var leaf := Branch(Leaf, c, Leaf);
    assert Linked(leaf);
    assert Linked(Grow(sub, c, onLeft));
    LinkedPlug(path, Grow(sub, c, onLeft));
  }

  /** Hanging a leaf with a node new to the tree adds that one node,
      keeps the nodes distinct and leaves the root where it was. */
  lemma GrowNodes(path: Path, sub: Shape, c: Cell, onLeft: bool)
    requires sub.Branch? && (if onLeft then sub.left.Leaf? else sub.right.Leaf?)
    requires Distinct(Plug(path, sub)) && c.node !in NodesOf(Plug(path, sub))
    ensures Distinct(Plug(path, Grow(sub, c, onLeft)))
    ensures NodesOf(Plug(path, Grow(sub, c, onLeft))) == NodesOf(Plug(path, sub)) + {c.node}
    ensures RootOf(Plug(path, Grow(sub, c, onLeft))) == RootOf(Plug(path, sub))
  {
    var g := Grow(sub, c, onLeft);
    DistinctPlug(path, sub);
    DistinctPlug(path, g);
    NodesOfPlug(path, sub);
    NodesOfPlug(path, g);
    RootOfPlug(path, sub);
    RootOfPlug(path, g);
  }

  /** Hanging a leaf for v in the empty slot a search for v reaches is
      Insert on the abstract tree: v was absent, the keys stay ordered, and
      only that slot changes. */
  lemma GrowSearch(path: Path, sub: Shape, c: Cell, onLeft: bool)
    requires sub.Branch?
    requires if onLeft then sub.left.Leaf? && c.key < sub.key.key else sub.right.Leaf? && c.key > sub.key.key
    requires OnSearchPath(AbsPath(path), c.key) && IsBST(Abs(Plug(path, sub)))
    ensures c.key !in Keys(Abs(Plug(path, sub)))
    ensures Abs(Plug(path, Grow(sub, c, onLeft))) == SearchTree.Insert(Abs(Plug(path, sub)), c.key)
    ensures IsBST(Abs(Plug(path, Grow(sub, c, onLeft))))
    ensures Filled(Plug(path, sub), Plug(path, Grow(sub, c, onLeft)), c.key)
  {
    var g := Grow(sub, c, onLeft);
    AbsPlug(path, sub);
    AbsPlug(path, g);
    BstAlongPath(AbsPath(path), Abs(sub), c.key);
    assert c.key !in Keys(Abs(sub));
    InsertAlongPath(AbsPath(path), Abs(sub), c.key);
    InsertCorrect(Abs(Plug(path, sub)), c.key);
    assert Filled(sub, g, c.key);
    FilledAlongPath(path, sub, g, c.key);
  }

  /** after is before with the empty slot that a search for v reaches
      filled by a leaf holding v: every other cell, and so every other node
      with its key, stays where it was. */
  predicate Filled(before: Shape, after: Shape, v: int)
  {
    match before
    case Leaf => after.Branch? && after.left.Leaf? && after.key.key == v && after.right.Leaf?
    case Branch(l, c, r) =>
      after.Branch? && after.key == c && v != c.key &&
      (v < c.key ==> after.right == r && Filled(l, after.left, v)) &&
      (v > c.key ==> after.left == l && Filled(r, after.right, v))
  }

  lemma {:induction false} FilledAlongPath(path: Path, a: Shape, b: Shape, v: int)
    requires OnSearchPath(AbsPath(path), v) && Filled(a, b, v)
    ensures Filled(Plug(path, a), Plug(path, b), v)
    decreases |path|
  {
    if path != [] {
      assert Toward(AbsFrame(path[0]), v);
      assert OnSearchPath(AbsPath(path[1..]), v) by {
        assert AbsPath(path[1..]) == AbsPath(path)[1..];
      }
      FilledAlongPath(path[1..], Attach(path[0], a), Attach(path[0], b), v);
    }
  }

  // ---------------------------------------------------------------------
  // Replacing the subtree below one cell, as the recursive updates do.

  /** A subtree replaced by one whose new nodes occur nowhere in the tree
      keeps the nodes distinct, and the tree's nodes change as the
      subtree's do. */
  lemma DistinctReplaced(f: Frame<Cell>, t: Shape, t': Shape)
    requires Distinct(Attach(f, t)) && Distinct(t')
    requires (NodesOf(t') - NodesOf(t)) !! NodesOf(Attach(f, t))
    ensures Distinct(Attach(f, t'))
    ensures NodesOf(Attach(f, t')) == (NodesOf(Attach(f, t)) - NodesOf(t)) + NodesOf(t')
  {
    assert NodesOf(Attach(f, t)) == {f.key.node} + NodesOf(Sibling(f)) + NodesOf(t);
    assert NodesOf(Attach(f, t')) == {f.key.node} + NodesOf(Sibling(f)) + NodesOf(t');
  }

  /** The cell of f linked to t' and to its other side, which is linked
      itself, makes Attach(f, t') linked when t' is. */
  lemma LinkedReplaced(f: Frame<Cell>, t': Shape)
    requires f.key.node.value == f.key.key && Linked(Sibling(f)) && Linked(t')
    requires if f.WentLeft? then f.key.node.left == RootOf(t') && f.key.node.right == RootOf(f.right)
             else f.key.node.left == RootOf(f.left) && f.key.node.right == RootOf(t')
    ensures Linked(Attach(f, t'))
  {
  }

  /** One level of insertRecursive: below a cell whose key sends v toward
      t, replacing t by t with v inserted inserts v into the whole. */
  lemma InsertedBelow(f: Frame<Cell>, t: Shape, t': Shape, v: int)
    requires Toward(AbsFrame(f), v) && IsBST(Abs(Attach(f, t)))
    requires Abs(t') == SearchTree.Insert(Abs(t), v)
    ensures Abs(Attach(f, t')) == SearchTree.Insert(Abs(Attach(f, t)), v)
  {
    AbsAttach(f, t);
    AbsAttach(f, t');
    InsertStep(AbsFrame(f), Abs(t), v);
  }

  /** Below a cell whose key sends v toward t, v is in the whole search
      tree exactly when it is in t. */
  lemma KeysBelow(f: Frame<Cell>, t: Shape, v: int)
    requires Toward(AbsFrame(f), v) && IsBST(Abs(Attach(f, t)))
    ensures v in Keys(Abs(Attach(f, t))) <==> v in Keys(Abs(t))
  {
    AbsAttach(f, t);
    InsertStep(AbsFrame(f), Abs(t), v);
  }

  lemma AbsAttach(f: Frame<Cell>, t: Shape)
    ensures Abs(Attach(f, t)) == Attach(AbsFrame(f), Abs(t))
  {
  }

  /** Filling a slot below the cell of f leaves the rest of the tree as
      it was. */
  lemma FilledStep(f: Frame<Cell>, a: Shape, b: Shape, v: int)
    requires Toward(AbsFrame(f), v) && Filled(a, b, v)
    ensures Filled(Attach(f, a), Attach(f, b), v)
  {
  }

  /** Below a non-empty path, the root of the whole tree is the outermost
      frame's node, whatever the subtree at the bottom. */
  lemma {:induction false} RootOfPlug(path: Path, s: Shape)
    ensures RootOf(Plug(path, s)) == if path == [] then RootOf(s) else path[|path| - 1].key.node
    decreases |path|
  {
    if path != [] {
      RootOfPlug(path[1..], Attach(path[0], s));
    }
  }

  // ---------------------------------------------------------------------
  // Searching a shape (BST.js:160-188).

  /** The node a search for v stops at: walk left when v is smaller, right
      otherwise, stop at an equal key; null when the walk falls off. */
  function Lookup(s: Shape, v: int): Node?
  {
    match s
    case Leaf => null
    case Branch(l, c, r) =>
      if v == c.key then c.node else if v < c.key then Lookup(l, v) else Lookup(r, v)
  }

  /** The node found holds v, and on a search tree a node is found exactly
      when v is one of its keys. */
  lemma {:induction false} LookupCorrect(s: Shape, v: int)
    requires IsBST(Abs(s))
    ensures Lookup(s, v) != null ==> Lookup(s, v) in NodesOf(s)
    ensures Linked(s) && Lookup(s, v) != null ==> Lookup(s, v).value == v
    ensures Lookup(s, v) != null <==> v in Keys(Abs(s))
  {
    match s
    case Leaf =>
    case Branch(l, c, r) =>
      if v < c.key {
        LookupCorrect(l, v);
      } else if v > c.key {
        LookupCorrect(r, v);
      }
  }
}

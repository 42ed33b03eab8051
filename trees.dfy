/** Binary trees as values: the measurements and the four traversal orders
    of BST.js, and a zipper (a path of frames) that names the position a
    cursor has reached while it walks down a tree. */
module Trees {

  datatype Tree<T> = Leaf | Branch(left: Tree<T>, key: T, right: Tree<T>)

  /** Math.max and Math.abs on integers. */
  function Max(a: int, b: int): int
  {
    if a >= b then a else b
  }

  function AbsInt(x: int): int
  {
    if x < 0 then -x else x
  }

  function Size<T>(t: Tree<T>): nat
  {
    match t
    case Leaf => 0
    case Branch(l, _, r) => Size(l) + 1 + Size(r)
  }

  /** The elements stored in a tree. */
  function Keys<T>(t: Tree<T>): set<T>
  {
    match t
    case Leaf => {}
    case Branch(l, k, r) => Keys(l) + {k} + Keys(r)
  }

  /** Edges on the longest downward path; -1 for the empty tree, so a
      single node has height 0 (BST.js:237-244). */
  function Height<T>(t: Tree<T>): (h: int)
    ensures -1 <= h
    ensures h == -1 <==> t == Leaf
  {
    match t
    case Leaf => -1
    case Branch(l, _, r) => Max(Height(l), Height(r)) + 1
  }

  /** The elements at depth d (d edges below the root), left to right. */
  function Level<T>(t: Tree<T>, d: nat): seq<T>
  {
    match t
    case Leaf => []
    case Branch(l, k, r) => if d == 0 then [k] else Level(l, d - 1) + Level(r, d - 1)
  }

  /** The height is the depth of the deepest non-empty level. */
  lemma {:induction false} HeightIsDeepestLevel<T>(t: Tree<T>, d: nat)
    ensures d > Height(t) ==> Level(t, d) == []
    ensures t != Leaf ==> Level(t, Height(t)) != []
  {
    match t
    case Leaf =>
    case Branch(l, _, r) =>
      if d > 0 {
        HeightIsDeepestLevel(l, d - 1);
        HeightIsDeepestLevel(r, d - 1);
      }
      if Height(t) > 0 {
        if Height(l) >= Height(r) {
          HeightIsDeepestLevel(l, Height(t) - 1);
        } else {
          HeightIsDeepestLevel(r, Height(t) - 1);
        }
      }
  }

  /** At every node the heights of the two subtrees differ by at most one. */
  predicate Balanced<T>(t: Tree<T>)
  {
    match t
    case Leaf => true
    case Branch(l, _, r) => Balanced(l) && Balanced(r) && -1 <= Height(l) - Height(r) <= 1
  }

  // ---------------------------------------------------------------------
  // Depth-first traversals (BST.js:210-235): left-node-right,
  // node-left-right and left-right-node.

  function InOrder<T>(t: Tree<T>): seq<T>
  {
    match t
    case Leaf => []
    case Branch(l, k, r) => InOrder(l) + [k] + InOrder(r)
  }

  function PreOrder<T>(t: Tree<T>): seq<T>
  {
    match t
    case Leaf => []
    case Branch(l, k, r) => [k] + PreOrder(l) + PreOrder(r)
  }

  function PostOrder<T>(t: Tree<T>): seq<T>
  {
    match t
    case Leaf => []
    case Branch(l, k, r) => PostOrder(l) + PostOrder(r) + [k]
  }

  /** The in-order sequence lists every element of the tree, one entry per node. */
  lemma {:induction false} InOrderElements<T>(t: Tree<T>)
    ensures |InOrder(t)| == Size(t)
    ensures forall x :: x in InOrder(t) <==> x in Keys(t)
  {
    match t
    case Leaf =>
    case Branch(l, _, r) =>
      InOrderElements(l);
      InOrderElements(r);
  }

  /** The three depth-first orders visit the same multiset of nodes. */
  lemma {:induction false} TraversalsAgree<T>(t: Tree<T>)
    ensures multiset(PreOrder(t)) == multiset(InOrder(t))
    ensures multiset(PostOrder(t)) == multiset(InOrder(t))
  {
    match t
    case Leaf =>
    case Branch(l, _, r) =>
      TraversalsAgree(l);
      TraversalsAgree(r);
  }

  // ---------------------------------------------------------------------
  // Breadth-first traversal (BST.js:190-208).

  /** The children the queue loop pushes for a dequeued tree: the
      non-empty ones, left before right. */
  function Children<T>(t: Tree<T>): seq<Tree<T>>
  {
    match t
    case Leaf => []
    case Branch(l, _, r) => NonEmpty(l) + NonEmpty(r)
  }

  /** [t], unless t is empty: what `if (node.left) queue.push(node.left)` pushes. */
  function NonEmpty<T>(t: Tree<T>): seq<Tree<T>>
  {
    if t.Leaf? then [] else [t]
  }

  function SizeSum<T>(q: seq<Tree<T>>): nat
  {
    if q == [] then 0 else Size(q[0]) + SizeSum(q[1..])
  }

  lemma {:induction false} SizeSumAppend<T>(a: seq<Tree<T>>, b: seq<Tree<T>>)
    ensures SizeSum(a + b) == SizeSum(a) + SizeSum(b)
  {
    if a != [] {
      assert (a + b)[0] == a[0];
      assert (a + b)[1..] == a[1..] + b;
      SizeSumAppend(a[1..], b);
    } else {
      assert a + b == b;
    }
  }

  lemma NonEmptyMeasures<T>(t: Tree<T>)
    ensures SizeSum(NonEmpty(t)) == Size(t)
    ensures ForestMultiset(NonEmpty(t)) == multiset(InOrder(t))
  {
    if !t.Leaf? {
      assert NonEmpty(t)[1..] == [];
    }
  }

  lemma ChildrenSize<T>(t: Tree<T>)
    requires t != Leaf
    ensures SizeSum(Children(t)) + 1 == Size(t)
  {
    SizeSumAppend(NonEmpty(t.left), NonEmpty(t.right));
    NonEmptyMeasures(t.left);
    NonEmptyMeasures(t.right);
  }

  /** What the FIFO queue loop of levelOrder emits from the queue q. */
  function Bfs<T>(q: seq<Tree<T>>): seq<T>
    decreases SizeSum(q), |q|
  {
    if q == [] then []
    else
      match q[0]
      case Leaf => Bfs(q[1..])
      case Branch(_, k, _) =>
        SizeSumAppend(q[1..], Children(q[0]));
        ChildrenSize(q[0]);
        [k] + Bfs(q[1..] + Children(q[0]))
  }

  /** The roots of a forest, left to right. */
  function Roots<T>(q: seq<Tree<T>>): seq<T>
  {
    if q == [] then []
    else (if q[0].Leaf? then [] else [q[0].key]) + Roots(q[1..])
  }

  /** All children of all trees of a forest, left to right. */
  function AllChildren<T>(q: seq<Tree<T>>): seq<Tree<T>>
  {
    if q == [] then [] else Children(q[0]) + AllChildren(q[1..])
  }

  lemma {:induction false} AllChildrenSize<T>(q: seq<Tree<T>>)
    ensures SizeSum(AllChildren(q)) <= SizeSum(q)
    ensures SizeSum(AllChildren(q)) == SizeSum(q) ==> SizeSum(q) == 0
  {
    if q != [] {
      AllChildrenSize(q[1..]);
      SizeSumAppend(Children(q[0]), AllChildren(q[1..]));
      if q[0] != Leaf { ChildrenSize(q[0]); }
    }
  }

  /** Level order of a forest, generation by generation: the roots, then
      the level-order of all their children. */
  function Generations<T>(q: seq<Tree<T>>): seq<T>
    decreases SizeSum(q), |q|
  {
    if q == [] then []
    else
      AllChildrenSize(q);
      if SizeSum(q) == 0 then Roots(q)
      else Roots(q) + Generations(AllChildren(q))
  }

  /** Level order of one tree: every node of depth 0, then depth 1, and so on,
      left to right within a depth. */
  function LevelOrder<T>(t: Tree<T>): seq<T>
  {
    Generations([t])
  }

  lemma {:induction false} RootsAppend<T>(a: seq<Tree<T>>, b: seq<Tree<T>>)
    ensures Roots(a + b) == Roots(a) + Roots(b)
    ensures AllChildren(a + b) == AllChildren(a) + AllChildren(b)
  {
    if a != [] {
      assert (a + b)[0] == a[0];
      assert (a + b)[1..] == a[1..] + b;
      RootsAppend(a[1..], b);
    } else {
      assert a + b == b;
    }
  }

  lemma {:induction false} RootsOfLeaves<T>(q: seq<Tree<T>>)
    requires SizeSum(q) == 0
    ensures Roots(q) == [] && AllChildren(q) == [] && Bfs(q) == []
    decreases |q|
  {
    if q != [] {
      RootsOfLeaves(q[1..]);
    }
  }

  /** Draining the trees q from the front of the queue emits their roots and
      leaves their children queued behind p. */
  lemma {:induction false} BfsDrains<T>(q: seq<Tree<T>>, p: seq<Tree<T>>)
    ensures Bfs(q + p) == Roots(q) + Bfs(p + AllChildren(q))
    decreases |q|, 1
  {
    if q == [] {
      assert q + p == p;
      assert p + AllChildren(q) == p;
    } else if q[0].Leaf? {
      BfsDrainsLeaf(q, p);
    } else {
      BfsDrainsBranch(q, p);
    }
  }

  lemma {:induction false} BfsDrainsLeaf<T>(q: seq<Tree<T>>, p: seq<Tree<T>>)
    requires q != [] && q[0].Leaf?
    ensures Bfs(q + p) == Roots(q) + Bfs(p + AllChildren(q))
    decreases |q|, 0
  {
    var q' := q[1..];
    assert (q + p)[0] == q[0];
    assert (q + p)[1..] == q' + p;
    BfsLeafStep(q + p);
    assert Roots(q) == Roots(q');
    assert AllChildren(q) == AllChildren(q');
    BfsDrains(q', p);
  }

  lemma {:induction false} BfsDrainsBranch<T>(q: seq<Tree<T>>, p: seq<Tree<T>>)
    requires q != [] && q[0].Branch?
    ensures Bfs(q + p) == Roots(q) + Bfs(p + AllChildren(q))
    decreases |q|, 0
  {
    var x, q' := q[0], q[1..];
    var p' := p + Children(x);
    BfsFrontBranch(q, p);
    BfsDrains(q', p');
    AllChildrenFront(q, p);
    RootsFront(q);
    Regroup(x.key, Roots(q'), Bfs(p + AllChildren(q)));
  }

  lemma RootsFront<T>(q: seq<Tree<T>>)
    requires q != [] && q[0].Branch?
    ensures Roots(q) == [q[0].key] + Roots(q[1..])
  {
  }

  lemma Regroup<T>(k: T, a: seq<T>, b: seq<T>)
    ensures [k] + (a + b) == ([k] + a) + b
  {
  }

  /** A branch at the front of q + p is emitted first, and its children go
      behind p. */
  lemma BfsFrontBranch<T>(q: seq<Tree<T>>, p: seq<Tree<T>>)
    requires q != [] && q[0].Branch?
    ensures Bfs(q + p) == [q[0].key] + Bfs(q[1..] + (p + Children(q[0])))
  {
    FrontOfAppend(q, p, Children(q[0]));
    BfsBranchStep(q + p);
  }

  lemma FrontOfAppend<T>(q: seq<T>, p: seq<T>, c: seq<T>)
    requires q != []
    ensures (q + p)[0] == q[0]
    ensures (q + p)[1..] + c == q[1..] + (p + c)
  {
    assert (q + p)[1..] == q[1..] + p;
  }

  lemma AllChildrenFront<T>(q: seq<Tree<T>>, p: seq<Tree<T>>)
    requires q != []
    ensures p + Children(q[0]) + AllChildren(q[1..]) == p + AllChildren(q)
  {
    assert AllChildren(q) == Children(q[0]) + AllChildren(q[1..]);
  }

  lemma BfsLeafStep<T>(q: seq<Tree<T>>)
    requires q != [] && q[0].Leaf?
    ensures Bfs(q) == Bfs(q[1..])
  {
  }

  lemma BfsBranchStep<T>(q: seq<Tree<T>>)
    requires q != [] && q[0].Branch?
    ensures Bfs(q) == [q[0].key] + Bfs(q[1..] + Children(q[0]))
  {
  }

  /** The queue loop emits the level order (breadth-first, left before right). */
  lemma {:induction false} BfsIsGenerations<T>(q: seq<Tree<T>>)
    ensures Bfs(q) == Generations(q)
    decreases SizeSum(q)
  {
    if q != [] {
      AllChildrenSize(q);
      if SizeSum(q) == 0 {
        RootsOfLeaves(q);
      } else {
        BfsDrains(q, []);
        assert q + [] == q;
        assert [] + AllChildren(q) == AllChildren(q);
        BfsIsGenerations(AllChildren(q));
      }
    }
  }

  function ForestMultiset<T>(q: seq<Tree<T>>): multiset<T>
  {
    if q == [] then multiset{} else multiset(InOrder(q[0])) + ForestMultiset(q[1..])
  }

  lemma {:induction false} ForestMultisetAppend<T>(a: seq<Tree<T>>, b: seq<Tree<T>>)
    ensures ForestMultiset(a + b) == ForestMultiset(a) + ForestMultiset(b)
  {
    if a != [] {
      assert (a + b)[0] == a[0];
      assert (a + b)[1..] == a[1..] + b;
      ForestMultisetAppend(a[1..], b);
    } else {
      assert a + b == b;
    }
  }

  lemma ChildrenMultiset<T>(t: Tree<T>)
    requires t != Leaf
    ensures ForestMultiset(Children(t)) + multiset{t.key} == multiset(InOrder(t))
  {
    ForestMultisetAppend(NonEmpty(t.left), NonEmpty(t.right));
    NonEmptyMeasures(t.left);
    NonEmptyMeasures(t.right);
  }

  /** The queue loop emits every node of the queued trees exactly once. */
  lemma {:induction false} BfsVisitsAll<T>(q: seq<Tree<T>>)
    ensures multiset(Bfs(q)) == ForestMultiset(q)
    decreases SizeSum(q), |q|
  {
    if q != [] {
      var x, q' := q[0], q[1..];
      if x == Leaf {
        BfsLeafStep(q);
        BfsVisitsAll(q');
      } else {
        SizeSumAppend(q', Children(x));
        ChildrenSize(x);
        BfsBranchStep(q);
        BfsVisitsAll(q' + Children(x));
        ForestMultisetAppend(q', Children(x));
        ChildrenMultiset(x);
      }
    }
  }

  /** Level order, like the depth-first orders, lists each node once. */
  lemma LevelOrderVisitsAll<T>(t: Tree<T>)
    ensures multiset(Bfs([t])) == multiset(InOrder(t))
    ensures LevelOrder(t) == Bfs([t])
  {
    BfsVisitsAll([t]);
    assert [t][1..] == [];
    BfsIsGenerations([t]);
  }

  // ---------------------------------------------------------------------
  // A zipper: the frames passed on the way down from the root to a
  // subtree, innermost (the parent) first.

  datatype Frame<T> = WentLeft(key: T, right: Tree<T>) | WentRight(left: Tree<T>, key: T)

  function Attach<T>(f: Frame<T>, t: Tree<T>): Tree<T>
  {
    match f
    case WentLeft(k, r) => Branch(t, k, r)
    case WentRight(l, k) => Branch(l, k, t)
  }

  /** The whole tree, given the path walked and the subtree reached. */
  function Plug<T>(path: seq<Frame<T>>, t: Tree<T>): (whole: Tree<T>)
    ensures path != [] || t.Branch? ==> whole.Branch?
    decreases |path|
  {
    if path == [] then t else Plug(path[1..], Attach(path[0], t))
  }

  lemma {:induction false} PlugAppend<T>(p: seq<Frame<T>>, q: seq<Frame<T>>, t: Tree<T>)
    ensures Plug(p + q, t) == Plug(q, Plug(p, t))
    decreases |p|
  {
    if p == [] {
      assert p + q == q;
    } else {
      assert (p + q)[0] == p[0];
      assert (p + q)[1..] == p[1..] + q;
      PlugAppend(p[1..], q, Attach(p[0], t));
    }
  }
}

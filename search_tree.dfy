/** The binary-search-tree invariant of BST.js and the behaviour of its
    update and search algorithms, stated on tree values. Every heap
    method of the class BinarySearchTree is proved to move its abstract
    tree exactly as the function of the same name here does. */
module SearchTree {
  import opened Trees
  import opened SortedSeqs

  /** Left keys strictly below the node's key, right keys strictly above,
      at every node; so no key occurs twice. */
  predicate IsBST(t: Tree<int>)
  {
    match t
    case Leaf => true
    case Branch(l, k, r) =>
      IsBST(l) && IsBST(r) &&
      (forall x :: x in Keys(l) ==> x < k) &&
      (forall x :: x in Keys(r) ==> k < x)
  }

  /** The ordering invariant holds exactly when the in-order traversal is
      strictly ascending. */
  lemma {:induction false} BstIffAscending(t: Tree<int>)
    ensures IsBST(t) <==> StrictlyAscending(InOrder(t))
  {
    match t
    case Leaf =>
    case Branch(l, k, r) =>
      BstIffAscending(l);
      BstIffAscending(r);
      InOrderElements(l);
      InOrderElements(r);
      AscendingAround(InOrder(l), k, InOrder(r));
  }

  // ---------------------------------------------------------------------
  // Insertion (BST.js:33-73)

  /** Walk down by comparison and hang a new leaf in the empty slot
      reached; an equal key stops the walk and changes nothing. */
  function Insert(t: Tree<int>, v: int): Tree<int>
  {
    match t
    case Leaf => Branch(Leaf, v, Leaf)
    case Branch(l, k, r) =>
      if v > k then Branch(l, k, Insert(r, v))
      else if v < k then Branch(Insert(l, v), k, r)
      else t
  }

  lemma {:induction false} InsertCorrect(t: Tree<int>, v: int)
    requires IsBST(t)
    ensures IsBST(Insert(t, v))
    ensures Keys(Insert(t, v)) == Keys(t) + {v}
    ensures v in Keys(t) ==> Insert(t, v) == t
    ensures v !in Keys(t) ==> Size(Insert(t, v)) == Size(t) + 1
  {
    match t
    case Leaf =>
    case Branch(l, k, r) =>
      if v > k {
        InsertCorrect(r, v);
      } else if v < k {
        InsertCorrect(l, v);
      }
  }

  /** Inserting a key already present leaves the in-order sequence as it
      was; inserting a new one keeps it strictly ascending. */
  lemma InsertInOrder(t: Tree<int>, v: int)
    requires IsBST(t)
    ensures v in Keys(t) ==> InOrder(Insert(t, v)) == InOrder(t)
    ensures StrictlyAscending(InOrder(Insert(t, v)))
    ensures |InOrder(Insert(t, v))| == |InOrder(t)| + (if v in Keys(t) then 0 else 1)
  {
    InsertCorrect(t, v);
    BstIffAscending(Insert(t, v));
    InOrderElements(t);
    InOrderElements(Insert(t, v));
  }

  // ---------------------------------------------------------------------
  // Deletion (BST.js:75-158)

  /** The in-order successor of a node with a right subtree t: the key of
      the leftmost node of t. */
  function MinKey(t: Tree<int>): int
    requires t.Branch?
  {
    if t.left.Leaf? then t.key else MinKey(t.left)
  }

  /** t with its leftmost node spliced out (replaced by its right child). */
  function DeleteMin(t: Tree<int>): Tree<int>
    requires t.Branch?
  {
    if t.left.Leaf? then t.right else Branch(DeleteMin(t.left), t.key, t.right)
  }

  lemma {:induction false} DeleteMinCorrect(t: Tree<int>)
    requires t.Branch? && IsBST(t)
    ensures MinKey(t) in Keys(t)
    ensures forall x :: x in Keys(t) ==> MinKey(t) <= x
    ensures IsBST(DeleteMin(t))
    ensures Keys(DeleteMin(t)) == Keys(t) - {MinKey(t)}
  {
    if t.left.Branch? {
      DeleteMinCorrect(t.left);
    }
  }

  /** Search for v; splice out a node with at most one child, or copy the
      successor's key into a node with two children and splice the
      successor out of the right subtree. An absent key changes nothing. */
  function Delete(t: Tree<int>, v: int): Tree<int>
  {
    match t
    case Leaf => Leaf
    case Branch(l, k, r) =>
      if v > k then Branch(l, k, Delete(r, v))
      else if v < k then Branch(Delete(l, v), k, r)
      else if l.Leaf? || r.Leaf? then (if l.Branch? then l else r)
      else Branch(l, MinKey(r), DeleteMin(r))
  }

  lemma {:induction false} DeleteCorrect(t: Tree<int>, v: int)
    requires IsBST(t)
    ensures IsBST(Delete(t, v))
    ensures Keys(Delete(t, v)) == Keys(t) - {v}
    ensures v !in Keys(t) ==> Delete(t, v) == t
  {
    match t
    case Leaf =>
    case Branch(l, k, r) =>
      if v > k {
        DeleteCorrect(r, v);
      } else if v < k {
        DeleteCorrect(l, v);
      } else if l.Branch? && r.Branch? {
        DeleteMinCorrect(r);
      }
  }

  /** After a deletion the in-order sequence is the old one with v taken
      out, the other keys in their old order. */
  lemma DeleteInOrder(t: Tree<int>, v: int)
    requires IsBST(t)
    ensures InOrder(Delete(t, v)) == Without(InOrder(t), v)
  {
    DeleteCorrect(t, v);
    BstIffAscending(t);
    BstIffAscending(Delete(t, v));
    WithoutAscending(InOrder(t), v);
    InOrderElements(t);
    InOrderElements(Delete(t, v));
    AscendingUnique(InOrder(Delete(t, v)), Without(InOrder(t), v));
  }

  // ---------------------------------------------------------------------
  // Depth of a key (BST.js:246-262)

  /** Edges walked from the root along the search path for v until a node
      holding v is met; -1 when the walk falls off the tree. */
  function Depth(t: Tree<int>, v: int): (d: int)
    ensures -1 <= d <= Height(t)
  {
    match t
    case Leaf => -1
    case Branch(l, k, r) =>
      if v == k then 0
      else
        var d := Depth(if v < k then l else r, v);
        if d < 0 then -1 else d + 1
  }

  lemma {:induction false} LevelKeys(t: Tree<int>, d: nat, x: int)
    requires x in Level(t, d)
    ensures x in Keys(t)
  {
    match t
    case Branch(l, _, r) =>
      if d > 0 {
        if x in Level(l, d - 1) { LevelKeys(l, d - 1, x); } else { LevelKeys(r, d - 1, x); }
      }
  }

  /** On a search tree the key v is found exactly when it is stored, and
      the depth reported is the level at which v sits. */
  lemma {:induction false} DepthCorrect(t: Tree<int>, v: int, d: nat)
    requires IsBST(t)
    ensures Depth(t, v) >= 0 <==> v in Keys(t)
    ensures Depth(t, v) == d <==> v in Level(t, d)
  {
    match t
    case Leaf =>
    case Branch(l, k, r) =>
      if v < k {
        DepthCorrect(l, v, if d > 0 then d - 1 else 0);
      } else if v > k {
        DepthCorrect(r, v, if d > 0 then d - 1 else 0);
      }
      if d > 0 {
        if v in Level(l, d - 1) { LevelKeys(l, d - 1, v); }
        if v in Level(r, d - 1) { LevelKeys(r, d - 1, v); }
      }
  }

  // ---------------------------------------------------------------------
  // The walk down a tree, as a zipper.

  /** The step recorded in frame f is the one a search for v takes. */
  predicate Toward(f: Frame<int>, v: int)
  {
    match f
    case WentLeft(k, _) => v < k
    case WentRight(_, k) => v > k
  }

  predicate OnSearchPath(path: seq<Frame<int>>, v: int)
  {
    forall i :: 0 <= i < |path| ==> Toward(path[i], v)
  }

  /** The keys of a tree include those of any subtree on a path. */
  lemma {:induction false} KeysPlug(path: seq<Frame<int>>, t: Tree<int>)
    ensures Keys(t) <= Keys(Plug(path, t))
    decreases |path|
  {
    if path != [] {
      KeysPlug(path[1..], Attach(path[0], t));
    }
  }

  /** Below a search path for v in a search tree, the subtree reached is a
      search tree that holds v if the whole tree does. */
  lemma {:induction false} BstAlongPath(path: seq<Frame<int>>, t: Tree<int>, v: int)
    requires IsBST(Plug(path, t)) && OnSearchPath(path, v)
    ensures IsBST(t)
    ensures v in Keys(Plug(path, t)) <==> v in Keys(t)
    decreases |path|
  {
    if path != [] {
      assert Toward(path[0], v);
      BstAlongPath(path[1..], Attach(path[0], t), v);
    }
  }

  /** One level of the recursive insertion: below a key that sends v
      toward t, inserting v into the whole is inserting it into t, and v is
      in the whole exactly when it is in t. */
  lemma InsertStep(f: Frame<int>, t: Tree<int>, v: int)
    requires Toward(f, v) && IsBST(Attach(f, t))
    ensures Insert(Attach(f, t), v) == Attach(f, Insert(t, v))
    ensures v in Keys(Attach(f, t)) <==> v in Keys(t)
  {
  }

  lemma {:induction false} InsertAlongPath(path: seq<Frame<int>>, t: Tree<int>, v: int)
    requires OnSearchPath(path, v)
    ensures Insert(Plug(path, t), v) == Plug(path, Insert(t, v))
    decreases |path|
  {
    if path != [] {
      assert Toward(path[0], v);
      InsertAlongPath(path[1..], Attach(path[0], t), v);
      assert Plug(path[1..], Attach(path[0], Insert(t, v))) == Plug(path, Insert(t, v));
    }
  }

  lemma {:induction false} DeleteAlongPath(path: seq<Frame<int>>, t: Tree<int>, v: int)
    requires OnSearchPath(path, v)
    ensures Delete(Plug(path, t), v) == Plug(path, Delete(t, v))
    decreases |path|
  {
    if path != [] {
      assert Toward(path[0], v);
      DeleteAlongPath(path[1..], Attach(path[0], t), v);
      assert Plug(path[1..], Attach(path[0], Delete(t, v))) == Plug(path, Delete(t, v));
    }
  }

  lemma {:induction false} DepthAlongPath(path: seq<Frame<int>>, t: Tree<int>, v: int)
    requires OnSearchPath(path, v)
    ensures Depth(Plug(path, t), v) == if Depth(t, v) < 0 then -1 else |path| + Depth(t, v)
    decreases |path|
  {
    if path != [] {
      assert Toward(path[0], v);
      DepthAlongPath(path[1..], Attach(path[0], t), v);
    }
  }

  /** Every step of the path went left, as the walk to a successor does. */
  predicate AllLeft<T>(path: seq<Frame<T>>)
  {
    forall i :: 0 <= i < |path| ==> path[i].WentLeft?
  }

  /** Walking left from the right child until no left child remains finds
      the successor, and splicing it out there is DeleteMin. */
  lemma {:induction false} LeftmostAlongPath(path: seq<Frame<int>>, s: Tree<int>)
    requires AllLeft(path) && s.Branch?
    ensures MinKey(Plug(path, s)) == MinKey(s)
    ensures DeleteMin(Plug(path, s)) == Plug(path, DeleteMin(s))
    decreases |path|
  {
    if path != [] {
      var f := path[0];
      assert f.WentLeft?;
      assert AllLeft(path[1..]) by {
        forall i | 0 <= i < |path| - 1 ensures path[1..][i].WentLeft? { assert path[1..][i] == path[i + 1]; }
      }
      LeftmostAlongPath(path[1..], Attach(f, s));
      assert Plug(path[1..], Attach(f, DeleteMin(s))) == Plug(path, DeleteMin(s));
    }
  }
}

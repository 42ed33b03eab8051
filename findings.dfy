/** deleteRecursive as BST.js:120-158 writes it. Its two descending
    branches (BST.js:123-126) store the inner call's result in a link but
    then fall off the end of the function, so the call returns undefined.
    The caller one level up stores that undefined in its own link: the
    node at which the search turned is cut off with everything below it.
    The members here model the tree left behind, reading the undefined
    link as an empty subtree, which is how the loops of find, insert,
    delete, depth and levelOrder treat it. The recursive members, whose
    node parameter defaults to this.root, treat it otherwise: a call on an
    undefined child restarts at the root (BST.js:210-241, 267-270), so
    height, isBalanced, the three depth-first traversals and rebalance no
    longer end once the tree holds such a link. The members here do not
    model that. Bst.BinarySearchTree.DeleteRecursive is the corrected
    version, proved equal to SearchTree.Delete. */
module Findings {
  import opened Trees
  import opened SearchTree
  import Build
  import opened SortedSeqs

  /** What a call of the as-written deleteRecursive on the subtree t
      returns, as a tree (an undefined result read as empty). */
  function AsWrittenReturn(t: Tree<int>, v: int): Tree<int>
  {
    match t
    case Leaf => Leaf
    case Branch(l, k, r) =>
      if k > v || k < v then Leaf
      else if l.Leaf? then r
      else if r.Leaf? then l
      else Branch(l, MinKey(r), DeleteMin(r))
  }

  /** The subtree at the node the call is made on, after the call: a
      descending branch links the inner call's return value; a node
      holding v with both children takes its successor's key; a node
      holding v with a missing child is left as it was (its caller unlinks
      it). */
  function AsWrittenAfter(t: Tree<int>, v: int): Tree<int>
  {
    match t
    case Leaf => Leaf
    case Branch(l, k, r) =>
      if k > v then Branch(AsWrittenReturn(l, v), k, r)
      else if k < v then Branch(l, k, AsWrittenReturn(r, v))
      else if l.Leaf? || r.Leaf? then t
      else Branch(l, MinKey(r), DeleteMin(r))
  }

  /** The whole tree after this.deleteRecursive(v): the call starts at the
      root and its result is dropped; root is reassigned only when the
      root itself holds v and lacks a child (BST.js:129-131, 135-137). */
  function AsWrittenDelete(t: Tree<int>, v: int): (r: Tree<int>)
    ensures t.Branch? && t.key == v ==> r == SearchTree.Delete(t, v)
  {
    if t.Branch? && t.key == v && (t.left.Leaf? || t.right.Leaf?) then AsWrittenReturn(t, v)
    else AsWrittenAfter(t, v)
  }

  /** When v lies one level below the root, or its search leaves the tree
      there, the missing return does no harm: the as-written deletion is
      the intended one. */
  lemma AsWrittenNearRoot(t: Tree<int>, v: int)
    requires t.Branch? && v != t.key
    requires var c := if v < t.key then t.left else t.right; c.Leaf? || c.key == v
    ensures AsWrittenDelete(t, v) == SearchTree.Delete(t, v)
  {
  }

  /** When the search for v turns at the root and again at the root's
      child, the as-written deletion cuts that child off whole: every key on
      that side is lost, whether v is in the tree or not. */
  lemma AsWrittenDropsSide(t: Tree<int>, v: int)
    requires t.Branch? && v != t.key
    requires var c := if v < t.key then t.left else t.right; c.Branch? && c.key != v
    ensures AsWrittenDelete(t, v) ==
      if v < t.key then Branch(Leaf, t.key, t.right) else Branch(t.left, t.key, Leaf)
  {
  }

  /** The tree built from 1..7, written out. */
  function Seven(): Tree<int>
  {
    Branch(Branch(Branch(Leaf, 1, Leaf), 2, Branch(Leaf, 3, Leaf)),
           4,
           Branch(Branch(Leaf, 5, Leaf), 6, Branch(Leaf, 7, Leaf)))
  }

  /** The literal 1..7 is already sorted and free of duplicates. */
  lemma SevenSorted()
    ensures Build.SortAndRemoveDuplicates([1, 2, 3, 4, 5, 6, 7]) == [1, 2, 3, 4, 5, 6, 7]
  {
    var s := [1, 2, 3, 4, 5, 6, 7];
    assert StrictlyAscending(s);
    Build.SortAndRemoveDuplicatesUnique(s, s);
  }

  /** buildTree over the whole of 1..7 gives Seven(). */
  lemma SevenBuiltFromRange()
    ensures Build.BuildTree([1, 2, 3, 4, 5, 6, 7], 0, 6) == Seven()
  {
    assert Build.Middle(0, 6) == 3;
    assert Build.Middle(0, 2) == 1;
    assert Build.Middle(4, 6) == 5;
  }

  /** It is the tree new BinarySearchTree([1, 2, 3, 4, 5, 6, 7]) builds. */
  lemma SevenIsBuilt()
    ensures Build.BuildFromArray([1, 2, 3, 4, 5, 6, 7]) == Seven()
  {
    SevenSorted();
    SevenBuiltFromRange();
  }

  /** Counterexample: in the tree built from 1..7, deleting 1 with the
      as-written deleteRecursive loses 2 and 3 besides; the intended
      deletion loses 1 only. */
  lemma AsWrittenLosesKeys()
    ensures Keys(AsWrittenDelete(Seven(), 1)) == {4, 5, 6, 7}
    ensures Keys(SearchTree.Delete(Seven(), 1)) == {2, 3, 4, 5, 6, 7}
  {
    AsWrittenDropsSide(Seven(), 1);
  }
}

/** Construction of a tree from an arbitrary array (BST.js:10-31): drop
    duplicates, sort numerically, then build a tree of minimal height by
    splitting each index range at its lower middle. */
module Build {
  import opened Trees
  import opened SortedSeqs
  import opened SearchTree

  predicate NoDuplicates(s: seq<int>)
  {
    forall i, j :: 0 <= i < j < |s| ==> s[i] != s[j]
  }

  /** `[...new Set(array)]`: the first occurrence of each element not yet
      seen, in order of appearance. */
  function Dedup(a: seq<int>, seen: set<int>): (r: seq<int>)
    ensures NoDuplicates(r)
    ensures forall x :: x in r <==> x in a && x !in seen
  {
    if a == [] then []
    else if a[0] in seen then Dedup(a[1..], seen)
    else
      var rest := Dedup(a[1..], seen + {a[0]});
      assert forall j :: 0 <= j < |rest| ==> rest[j] != a[0] by {
        forall j | 0 <= j < |rest| ensures rest[j] != a[0] { assert rest[j] in rest; }
      }
      [a[0]] + rest
  }

  /** Insert x into the ascending sequence s before the first element that
      is not smaller than x. */
  function InsertSorted(s: seq<int>, x: int): (r: seq<int>)
    ensures multiset(r) == multiset(s) + multiset{x}
  {
    if s == [] || x <= s[0] then [x] + s
    else
      assert s == [s[0]] + s[1..];
      [s[0]] + InsertSorted(s[1..], x)
  }

  /** `uniqueArray.sort((a, b) => a - b)`: numeric ascending order. The
      sort algorithm is the host's; insertion sort stands for it, since a
      numeric sort of distinct integers has exactly one possible result. */
  function SortNumeric(s: seq<int>): (r: seq<int>)
    ensures multiset(r) == multiset(s)
  {
    if s == [] then []
    else
      assert s == [s[0]] + s[1..];
      InsertSorted(SortNumeric(s[1..]), s[0])
  }

  lemma {:induction false} InsertSortedAscending(s: seq<int>, x: int)
    requires StrictlyAscending(s) && x !in s
    ensures StrictlyAscending(InsertSorted(s, x))
  {
    if s == [] {
    } else {
      AscendingTail(s);
      assert s == [s[0]] + s[1..];
      if x <= s[0] {
        assert x < s[0] by { assert s[0] in s; }
        AscendingCons(x, s);
      } else {
        assert x !in s[1..];
        InsertSortedAscending(s[1..], x);
        var tail := InsertSorted(s[1..], x);
        forall y | y in tail ensures s[0] < y {
          assert y in multiset(tail);
          assert y == x || y in multiset(s[1..]);
        }
        AscendingCons(s[0], tail);
      }
    }
  }

  lemma {:induction false} SortDistinctAscending(s: seq<int>)
    requires NoDuplicates(s)
    ensures StrictlyAscending(SortNumeric(s))
  {
    if s != [] {
      assert NoDuplicates(s[1..]) by {
        forall i, j | 0 <= i < j < |s| - 1 ensures s[1..][i] != s[1..][j] {
          assert s[1..][i] == s[i + 1] && s[1..][j] == s[j + 1];
        }
      }
      SortDistinctAscending(s[1..]);
      var sorted := SortNumeric(s[1..]);
      assert s[0] !in s[1..] by {
        forall j | 0 <= j < |s| - 1 ensures s[1..][j] != s[0] { assert s[1..][j] == s[j + 1]; }
      }
      assert s[0] !in multiset(sorted);
      InsertSortedAscending(sorted, s[0]);
    }
  }

  /** BST.js:14-18. */
  function SortAndRemoveDuplicates(a: seq<int>): (r: seq<int>)
    ensures StrictlyAscending(r)
    ensures forall x :: x in r <==> x in a
  {
    var unique := Dedup(a, {});
    SortDistinctAscending(unique);
    var r := SortNumeric(unique);
    assert forall x :: x in r <==> x in multiset(unique);
    r
  }

  /** The result is the strictly ascending sequence of the distinct
      elements of a: no other sequence qualifies. */
  lemma SortAndRemoveDuplicatesUnique(a: seq<int>, s: seq<int>)
    requires StrictlyAscending(s) && (forall x :: x in s <==> x in a)
    ensures SortAndRemoveDuplicates(a) == s
  {
    AscendingUnique(SortAndRemoveDuplicates(a), s);
  }

  // ---------------------------------------------------------------------

  /** Math.floor((left + right) / 2), for left <= right. */
  function Middle(left: int, right: int): (mid: int)
    requires left <= right
    ensures left <= mid <= right
    ensures mid - left <= right - mid <= mid - left + 1
  {
    (left + right) / 2
  }

  /** buildTree(array, left, right) of BST.js:20-31: the node holding
      array[mid], mid the lower middle of [left, right], over the trees
      built from the two halves; an empty range is the empty tree. */

  function BuildTree(a: seq<int>, left: int, right: int): Tree<int>
    requires left > right || (0 <= left && right < |a|)
    decreases right - left + 1
  {
    if left > right then Leaf
    else
      var mid := Middle(left, right);
      Branch(BuildTree(a, left, mid - 1), a[mid], BuildTree(a, mid + 1, right))
  }

  lemma SplitSlice(a: seq<int>, i: int, m: int, j: int)
    requires 0 <= i <= m < j <= |a|
    ensures a[i..j] == a[i..m] + [a[m]] + a[m + 1..j]
  {
  }

  /** One level of buildTree: the node at the middle index over the trees
      built from the two halves. */
  lemma BuildTreeUnfold(a: seq<int>, left: int, right: int)
    requires 0 <= left <= right < |a|
    ensures var mid := Middle(left, right);
      BuildTree(a, left, right) == Branch(BuildTree(a, left, mid - 1), a[mid], BuildTree(a, mid + 1, right))
  {
  }

  /** The converse reading of BuildTreeUnfold, for the two halves in hand. */
  lemma BuildTreeFold(a: seq<int>, left: int, right: int, tl: Tree<int>, tr: Tree<int>)
    requires 0 <= left <= right < |a|
    requires tl == BuildTree(a, left, Middle(left, right) - 1)
    requires tr == BuildTree(a, Middle(left, right) + 1, right)
    ensures Branch(tl, a[Middle(left, right)], tr) == BuildTree(a, left, right)
  {
  }

  lemma InOrderStep(a: seq<int>, left: int, right: int)
    requires 0 <= left <= right < |a|
    requires var mid := Middle(left, right);
      InOrder(BuildTree(a, left, mid - 1)) == a[left..mid] &&
      InOrder(BuildTree(a, mid + 1, right)) == a[mid + 1..right + 1]
    ensures InOrder(BuildTree(a, left, right)) == a[left..right + 1]
  {
    var mid := Middle(left, right);
    BuildTreeUnfold(a, left, right);
    SplitSlice(a, left, mid, right + 1);
  }

  /** The in-order sequence of the tree built from an index range is the
      range itself. */
  lemma {:induction false} BuildTreeInOrder(a: seq<int>, left: int, right: int)
    requires 0 <= left <= right + 1 <= |a|
    ensures InOrder(BuildTree(a, left, right)) == a[left..right + 1]
    decreases right - left + 1
  {
    if left <= right {
      var mid := Middle(left, right);
      BuildTreeInOrder(a, left, mid - 1);
      BuildTreeInOrder(a, mid + 1, right);
      InOrderStep(a, left, right);
    } else {
      assert a[left..right + 1] == [];
    }
  }

  function Pow2(n: nat): nat
  {
    if n == 0 then 1 else 2 * Pow2(n - 1)
  }

  /** The height of a minimal tree with n nodes: -1 when empty, otherwise
      one more than that of its larger half of floor(n/2) nodes. */
  function MinimalHeight(n: nat): int
  {
    if n == 0 then -1 else 1 + MinimalHeight(n / 2)
  }

  /** For n >= 1, the minimal height is floor(log2 n). */
  lemma {:induction false} MinimalHeightIsLog(n: nat)
    requires n >= 1
    ensures MinimalHeight(n) >= 0
    ensures Pow2(MinimalHeight(n)) <= n < Pow2(MinimalHeight(n) + 1)
  {
    if n > 1 {
      MinimalHeightIsLog(n / 2);
    }
  }

  lemma {:induction false} MinimalHeightMonotone(m: nat, n: nat)
    requires m <= n
    ensures MinimalHeight(m) <= MinimalHeight(n)
    ensures n <= m + 1 ==> MinimalHeight(n) <= MinimalHeight(m) + 1
  {
    if m >= 1 {
      MinimalHeightMonotone(m / 2, n / 2);
    } else if n >= 1 {
      assert MinimalHeight(n) == 1 + MinimalHeight(n / 2);
      MinimalHeightMonotone(0, n / 2);
    }
  }

  /** A minimal tree of n nodes has a root over halves of nl and nr nodes,
      nl <= nr <= nl + 1: one level above the larger half, and the two
      halves differ in height by at most one. */
  lemma MinimalHeightSplit(n: nat, nl: nat, nr: nat)
    requires nl + nr + 1 == n && nl <= nr <= nl + 1
    ensures MinimalHeight(n) == 1 + MinimalHeight(nr)
    ensures MinimalHeight(nl) <= MinimalHeight(nr) <= MinimalHeight(nl) + 1
  {
    assert nr == n / 2;
    MinimalHeightMonotone(nl, nr);
  }

  /** t has n nodes and the least height any tree of n nodes can have. */
  predicate MinimalOfSize(t: Tree<int>, n: nat)
  {
    Size(t) == n && Height(t) == MinimalHeight(n)
  }

  lemma MinimalNode(t: Tree<int>, nl: nat, nr: nat, n: nat)
    requires t.Branch? && MinimalOfSize(t.left, nl) && MinimalOfSize(t.right, nr)
    requires Balanced(t.left) && Balanced(t.right)
    requires nl <= nr <= nl + 1 && n == nl + nr + 1
    ensures MinimalOfSize(t, n) && Balanced(t)
  {
    MinimalHeightSplit(n, nl, nr);
  }

  /** The range split of buildTree: the left half has floor((n-1)/2)
      indices and the right half floor(n/2), so the tree built from n
      indices has n nodes, the height of a minimal tree, and halves whose
      heights differ by at most one at every node. */
  lemma {:induction false} BuildTreeShape(a: seq<int>, left: int, right: int, n: nat)
    requires 0 <= left <= right + 1 <= |a| && n == right - left + 1
    ensures MinimalOfSize(BuildTree(a, left, right), n)
    ensures Balanced(BuildTree(a, left, right))
    decreases n
  {
    if left <= right {
      var mid := Middle(left, right);
      var nl, nr := mid - left, right - mid;
      BuildTreeShape(a, left, mid - 1, nl);
      BuildTreeShape(a, mid + 1, right, nr);
      BuildTreeUnfold(a, left, right);
      MinimalNode(BuildTree(a, left, right), nl, nr, n);
    }
  }

  /** The tree the constructor builds from an array. */
  function BuildFromArray(input: seq<int>): Tree<int>
  {
    var s := SortAndRemoveDuplicates(input);
    BuildTree(s, 0, |s| - 1)
  }

  /** Built from a whole sequence, the tree holds that sequence in order. */
  lemma BuildWholeInOrder(s: seq<int>)
    ensures InOrder(BuildTree(s, 0, |s| - 1)) == s
  {
    BuildTreeInOrder(s, 0, |s| - 1);
    assert s[0..|s|] == s;
  }

  /** Built from a whole sequence, the tree is balanced and as low as a
      tree of that size can be. */
  lemma BuildWholeShape(s: seq<int>)
    ensures Balanced(BuildTree(s, 0, |s| - 1))
    ensures MinimalOfSize(BuildTree(s, 0, |s| - 1), |s|)
  {
    BuildTreeShape(s, 0, |s| - 1, |s|);
  }

  /** The tree built from a whole strictly ascending sequence is a search
      tree holding that sequence in order, balanced and of minimal height. */
  lemma BuildSortedCorrect(s: seq<int>)
    requires StrictlyAscending(s)
    ensures IsBST(BuildTree(s, 0, |s| - 1))
    ensures InOrder(BuildTree(s, 0, |s| - 1)) == s
    ensures Balanced(BuildTree(s, 0, |s| - 1))
    ensures MinimalOfSize(BuildTree(s, 0, |s| - 1), |s|)
  {
    BuildWholeInOrder(s);
    BstIffAscending(BuildTree(s, 0, |s| - 1));
    BuildWholeShape(s);
  }

  lemma BuildFromArrayCorrect(input: seq<int>)
    ensures IsBST(BuildFromArray(input))
    ensures InOrder(BuildFromArray(input)) == SortAndRemoveDuplicates(input)
    ensures forall x :: x in Keys(BuildFromArray(input)) <==> x in input
    ensures Balanced(BuildFromArray(input))
    ensures MinimalOfSize(BuildFromArray(input), |SortAndRemoveDuplicates(input)|)
  {
    var s := SortAndRemoveDuplicates(input);
    var t := BuildTree(s, 0, |s| - 1);
    assert BuildFromArray(input) == t;
    BuildSortedCorrect(s);
    InOrderElements(t);
    forall x ensures x in Keys(t) <==> x in input {
      assert x in Keys(t) <==> x in s;
    }
  }
}

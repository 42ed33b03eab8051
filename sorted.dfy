/** Strictly ascending integer sequences: the shape of the in-order
    sequence of a binary search tree and of a sorted array without
    duplicates. */
module SortedSeqs {

  predicate StrictlyAscending(s: seq<int>)
  {
    forall i, j :: 0 <= i < j < |s| ==> s[i] < s[j]
  }

  /** A strictly ascending sequence is determined by its elements. */
  lemma {:induction false} AscendingUnique(a: seq<int>, b: seq<int>)
    requires StrictlyAscending(a) && StrictlyAscending(b)
    requires forall x :: x in a <==> x in b
    ensures a == b
    decreases |a|
  {
    if a == [] {
      assert forall j :: 0 <= j < |b| ==> b[j] in b;
    } else {
      assert a[0] in a;
      assert b != [] by { assert a[0] in b; }
      assert b[0] in b;
      assert a[0] == b[0] by {
        var j :| 0 <= j < |b| && b[j] == a[0];
        var i :| 0 <= i < |a| && a[i] == b[0];
        assert b[0] <= b[j] && a[0] <= a[i];
      }
      forall x
        ensures x in a[1..] <==> x in b[1..]
      {
        if x in a[1..] {
          assert x in b && x != b[0];
        }
        if x in b[1..] {
          assert x in a && x != a[0];
        }
      }
      AscendingUnique(a[1..], b[1..]);
      assert a == [a[0]] + a[1..];
      assert b == [b[0]] + b[1..];
    }
  }

  /** Joining a sequence, a separating value and another sequence keeps
      them strictly ascending exactly when each part is strictly ascending
      and the separator lies strictly between them. */
  lemma AscendingAround(l: seq<int>, k: int, r: seq<int>)
    ensures StrictlyAscending(l + [k] + r) <==>
      StrictlyAscending(l) && StrictlyAscending(r) &&
      (forall x :: x in l ==> x < k) && (forall x :: x in r ==> k < x)
  {
    var s := l + [k] + r;
    if StrictlyAscending(s) {
      forall i, j | 0 <= i < j < |l| ensures l[i] < l[j] { assert s[i] == l[i] && s[j] == l[j]; }
      forall i, j | 0 <= i < j < |r| ensures r[i] < r[j] {
        assert s[|l| + 1 + i] == r[i] && s[|l| + 1 + j] == r[j];
      }
      forall x | x in l ensures x < k {
        var i :| 0 <= i < |l| && l[i] == x;
        assert s[i] == x && s[|l|] == k;
      }
      forall x | x in r ensures k < x {
        var i :| 0 <= i < |r| && r[i] == x;
        assert s[|l| + 1 + i] == x && s[|l|] == k;
      }
    }
    if StrictlyAscending(l) && StrictlyAscending(r) &&
       (forall x :: x in l ==> x < k) && (forall x :: x in r ==> k < x)
    {
      forall i, j | 0 <= i < j < |s| ensures s[i] < s[j] {
        if j < |l| {
          assert s[i] == l[i] && s[j] == l[j];
        } else if j == |l| {
          assert s[i] == l[i] && s[j] == k;
        } else if i > |l| {
          assert s[i] == r[i - |l| - 1] && s[j] == r[j - |l| - 1];
        } else if i == |l| {
          assert s[j] == r[j - |l| - 1] && s[i] == k;
        } else {
          assert s[i] == l[i] && l[i] in l && s[j] == r[j - |l| - 1] && r[j - |l| - 1] in r;
        }
      }
    }
  }

  /** The sequence with every occurrence of v removed, order kept. */
  function Without(s: seq<int>, v: int): (r: seq<int>)
    ensures forall x :: x in r <==> x in s && x != v
  {
    if s == [] then []
    else (if s[0] == v then [] else [s[0]]) + Without(s[1..], v)
  }

  /** The tail of a strictly ascending sequence is strictly ascending and
      lies above the head. */
  lemma AscendingTail(s: seq<int>)
    requires StrictlyAscending(s) && s != []
    ensures StrictlyAscending(s[1..])
    ensures forall y :: y in s[1..] ==> s[0] < y
  {
    forall i, j | 0 <= i < j < |s| - 1 ensures s[1..][i] < s[1..][j] {
      assert s[1..][i] == s[i + 1] && s[1..][j] == s[j + 1];
    }
    forall y | y in s[1..] ensures s[0] < y {
      var j :| 0 <= j < |s| - 1 && s[1..][j] == y;
      assert s[j + 1] == y;
    }
  }

  /** A value below every element of a strictly ascending sequence can be
      put in front of it. */
  lemma AscendingCons(x: int, w: seq<int>)
    requires StrictlyAscending(w) && forall y :: y in w ==> x < y
    ensures StrictlyAscending([x] + w)
  {
    var s := [x] + w;
    forall i, j | 0 <= i < j < |s| ensures s[i] < s[j] {
      assert s[j] == w[j - 1];
      if i == 0 {
        assert w[j - 1] in w;
      } else {
        assert s[i] == w[i - 1];
      }
    }
  }

  lemma {:induction false} WithoutAscending(s: seq<int>, v: int)
    requires StrictlyAscending(s)
    ensures StrictlyAscending(Without(s, v))
  {
    if s != [] {
      AscendingTail(s);
      WithoutAscending(s[1..], v);
      var w := Without(s[1..], v);
      if s[0] != v {
        forall y | y in w ensures s[0] < y {
          assert y in s[1..];
        }
        AscendingCons(s[0], w);
        assert Without(s, v) == [s[0]] + w;
      } else {
        assert Without(s, v) == w;
      }
    }
  }
}

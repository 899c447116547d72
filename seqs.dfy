/** Facts about integer sequences shared by both trees: ordering, insertion
    into a sorted sequence and reversal. */
module Seqs {

  /** Non-decreasing order: the order in which the B-tree emits its keys. */
  ghost predicate Sorted(s: seq<int>) {
    forall i, j :: 0 <= i < j < |s| ==> s[i] <= s[j]
  }

  /** Strictly increasing order: the order in which the BST emits its keys. */
  ghost predicate StrictlySorted(s: seq<int>) {
    forall i, j :: 0 <= i < j < |s| ==> s[i] < s[j]
  }

  /** Every element of `a` is at most every element of `b`. */
  ghost predicate AllBelow(a: seq<int>, b: seq<int>) {
    forall x, y :: x in a && y in b ==> x <= y
  }

  /** A concatenation is sorted exactly when both parts are and the left part
      lies below the right part. */
  lemma SortedConcat(a: seq<int>, b: seq<int>)
    ensures Sorted(a + b) <==> Sorted(a) && Sorted(b) && AllBelow(a, b)
  {
    var s := a + b;
    if Sorted(s) {
      forall i, j | 0 <= i < j < |a| ensures a[i] <= a[j] {
        assert a[i] == s[i] && a[j] == s[j];
      }
      forall i, j | 0 <= i < j < |b| ensures b[i] <= b[j] {
        assert b[i] == s[|a| + i] && b[j] == s[|a| + j];
      }
      forall x, y | x in a && y in b ensures x <= y {
        var i :| 0 <= i < |a| && a[i] == x;
        var j :| 0 <= j < |b| && b[j] == y;
        assert x == s[i] && y == s[|a| + j];
      }
    }
    if Sorted(a) && Sorted(b) && AllBelow(a, b) {
      forall i, j | 0 <= i < j < |s| ensures s[i] <= s[j] {
        if j < |a| {
          assert s[i] == a[i] && s[j] == a[j];
        } else if i >= |a| {
          assert s[i] == b[i - |a|] && s[j] == b[j - |a|];
        } else {
          assert s[i] in a && s[j] in b;
        }
      }
    }
  }

  /** In a sorted sequence the first element is the least and the last the greatest. */
  lemma SortedEnds(s: seq<int>)
    requires Sorted(s) && |s| > 0
    ensures forall x :: x in s ==> s[0] <= x <= s[|s| - 1]
  {
    forall x | x in s ensures s[0] <= x <= s[|s| - 1] {
      var i :| 0 <= i < |s| && s[i] == x;
    }
  }

  /** Replacing the middle part by one holding one more element adds that
      element to the whole. */
  lemma MultisetReplaceMiddle(p: seq<int>, m: seq<int>, m': seq<int>, q: seq<int>, x: int)
    requires multiset(m') == multiset(m) + multiset{x}
    ensures multiset(p + m' + q) == multiset(p + m + q) + multiset{x}
  {
  }

  /** A sorted sequence `p + m + q` stays sorted when its middle `m` gains one
      element `x` that lies between the two outer parts. */
  lemma SortedReplaceMiddle(p: seq<int>, m: seq<int>, m': seq<int>, q: seq<int>, x: int)
    requires Sorted(p + m + q) && Sorted(m')
    requires multiset(m') == multiset(m) + multiset{x}
    requires forall y :: y in p ==> y <= x
    requires forall y :: y in q ==> x <= y
    ensures Sorted(p + m' + q)
  {
    SortedConcat(p + m, q);
    SortedConcat(p, m);
    forall y | y in m' ensures y == x || y in m {
      assert y in multiset(m');
    }
    assert AllBelow(p, m');
    SortedConcat(p, m');
    forall y, z | y in p + m' && z in q ensures y <= z {
      if y in p {
        assert y in p + m;
      } else if y != x {
        assert y in m;
        assert y in p + m;
      }
    }
    SortedConcat(p + m', q);
  }

  /** Regrouping a concatenation of five pieces. */
  lemma Regroup(p: seq<int>, a: seq<int>, m: seq<int>, b: seq<int>, q: seq<int>)
    ensures p + a + (m + b + q) == (p + a) + m + (b + q)
    ensures p + a + (m + b + q) == p + (a + m + b) + q
    ensures a + (m + b + q) == a + m + (b + q)
  {
  }

  /** Inserting `x` before position `i`, as a vector's insert does: the
      elements before `i` stay, `x` lands at `i`, the rest move one step right. */
  function InsertAt<T>(s: seq<T>, i: nat, x: T): (r: seq<T>)
    requires i <= |s|
    ensures |r| == |s| + 1 && r[i] == x
    ensures forall j :: 0 <= j < i ==> r[j] == s[j]
    ensures forall j :: i <= j < |s| ==> r[j + 1] == s[j]
  {
    s[..i] + [x] + s[i..]
  }

  /** The sorted insertion performed by a B-tree leaf: scanning from the right,
      the new key goes after the last element not greater than it. */
  function InsertSorted(s: seq<int>, x: int): (r: seq<int>)
    ensures |r| == |s| + 1
    ensures multiset(r) == multiset(s) + multiset{x}
  {
    if s == [] || s[|s| - 1] <= x then
      s + [x]
    else
      assert s == s[..|s| - 1] + [s[|s| - 1]];
      InsertSorted(s[..|s| - 1], x) + [s[|s| - 1]]
  }

  /** Inserting into a sorted sequence keeps it sorted. */
  lemma {:induction false} InsertSortedKeepsOrder(s: seq<int>, x: int)
    requires Sorted(s)
    ensures Sorted(InsertSorted(s, x))
  {
    if s == [] || s[|s| - 1] <= x {
      if s != [] {
        SortedEnds(s);
      }
      SortedConcat(s, [x]);
    } else {
      var init, last := s[..|s| - 1], s[|s| - 1];
      assert s == init + [last];
      SortedConcat(init, [last]);
      InsertSortedKeepsOrder(init, x);
      var r := InsertSorted(init, x);
      forall y | y in r ensures y <= last {
        assert y in multiset(r);
        if y != x {
          assert y in init;
        }
      }
      SortedConcat(r, [last]);
    }
  }

  /** One step of the scan: a last element greater than `x` stays last. */
  lemma InsertSortedStep(s: seq<int>, x: int)
    requires s != [] && s[|s| - 1] > x
    ensures InsertSorted(s, x) == InsertSorted(s[..|s| - 1], x) + [s[|s| - 1]]
  {
  }

  /** Where the scan of InsertSorted stops: after the last element of `p`,
      which is not greater than `x`, and before all of `q`, which are. */
  lemma {:induction false} InsertSortedAt(p: seq<int>, q: seq<int>, x: int)
    requires p == [] || p[|p| - 1] <= x
    requires forall y :: y in q ==> y > x
    ensures InsertSorted(p + q, x) == p + [x] + q
    decreases |q|
  {
    if q == [] {
      assert p + q == p;
    } else {
      var q', last := q[..|q| - 1], q[|q| - 1];
      assert p + q == (p + q') + [last];
      assert last in q;
      InsertSortedStep(p + q, x);
      assert (p + q)[..|p + q| - 1] == p + q';
      forall y | y in q' ensures y > x {
        assert y in q;
      }
      InsertSortedAt(p, q', x);
      assert p + [x] + q == (p + [x] + q') + [last];
    }
  }

  /** A sequence laid out as `InsertAt` describes is that insertion. */
  lemma InsertAtIs(r: seq<int>, s: seq<int>, i: nat, x: int)
    requires i <= |s| && |r| == |s| + 1 && r[i] == x
    requires forall j :: 0 <= j < i ==> r[j] == s[j]
    requires forall j :: i <= j < |s| ==> r[j + 1] == s[j]
    ensures r == InsertAt(s, i, x)
  {
    var q := InsertAt(s, i, x);
    forall j | 0 <= j < |r| ensures r[j] == q[j] {
      if j > i {
        assert r[(j - 1) + 1] == s[j - 1];
      }
    }
  }

  /** The sorted insertion puts `x` at the position `i` that the scan from
      the end stops at. */
  lemma InsertSortedIsInsertAt(s: seq<int>, i: nat, x: int)
    requires i <= |s| && (i > 0 ==> s[i - 1] <= x)
    requires forall j :: i <= j < |s| ==> s[j] > x
    ensures InsertSorted(s, x) == InsertAt(s, i, x)
  {
    forall y | y in s[i..] ensures y > x {
      var k :| 0 <= k < |s[i..]| && s[i..][k] == y;
      assert s[i + k] == y;
    }
    InsertSortedAt(s[..i], s[i..], x);
    assert s[..i] + s[i..] == s;
  }

  /** The reversal of a sequence. */
  function Reversed(s: seq<int>): (r: seq<int>)
    ensures |r| == |s|
  {
    if s == [] then [] else [s[|s| - 1]] + Reversed(s[..|s| - 1])
  }

  /** Element `k` of the reversal is element `|s| - 1 - k` of the original. */
  lemma {:induction false} ReversedAt(s: seq<int>, k: nat)
    requires k < |s|
    ensures Reversed(s)[k] == s[|s| - 1 - k]
  {
    if k > 0 {
      ReversedAt(s[..|s| - 1], k - 1);
    }
  }
}

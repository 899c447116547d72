/** The input generators and the summary statistics of the benchmark that
    drive and measure both trees: the ascending and the descending key
    sequences, and the least and the greatest of a series of timings. */
module Benchmark {
  import opened Seqs

  /** The keys 1, 2, ..., count; none when count is below 1. */
  function Ascending(count: int): (r: seq<int>)
    ensures |r| == (if count > 0 then count else 0)
    ensures forall k :: 0 <= k < |r| ==> r[k] == k + 1
    decreases count
  {
    if count <= 0 then [] else Ascending(count - 1) + [count]
  }

  /** The keys count, count - 1, ..., 1; none when count is below 1. */
  function Descending(count: int): (r: seq<int>)
    ensures |r| == (if count > 0 then count else 0)
    ensures forall k :: 0 <= k < |r| ==> r[k] == count - k
    decreases count
  {
    if count <= 0 then [] else [count] + Descending(count - 1)
  }

  /** The descending keys are the ascending ones read backwards. */
  lemma {:induction false} DescendingIsReversed(count: int)
    ensures Descending(count) == Reversed(Ascending(count))
    decreases count
  {
    if count > 0 {
      var a := Ascending(count);
      assert a[|a| - 1] == count;
      assert a[..|a| - 1] == Ascending(count - 1);
      DescendingIsReversed(count - 1);
    }
  }

  /** The ascending input: pushes 1 up to `count` in turn. */
  method Sequential(count: int) returns (data: seq<int>)
    ensures data == Ascending(count)
  {
    data := [];
    var i := 1;
    while i <= count
      invariant 1 <= i <= (if count >= 1 then count + 1 else 1)
      invariant data == Ascending(i - 1)
    {
      data := data + [i];
      i := i + 1;
    }
  }

  /** The descending input: pushes `count` down to 1 in turn. */
  method Reverse(count: int) returns (data: seq<int>)
    ensures data == Descending(count)
  {
    data := [];
    var i := count;
    while i >= 1
      invariant count >= 1 ==> 0 <= i <= count
      invariant count < 1 ==> i == count
      invariant data + Descending(i) == Descending(count)
    {
      assert Descending(i) == [i] + Descending(i - 1);
      data := data + [i];
      i := i - 1;
    }
  }

  /** The least element of `s`, and 0 for no element. */
  function MinOf(s: seq<int>): (m: int)
    ensures s == [] ==> m == 0
    ensures s != [] ==> m in s && forall x :: x in s ==> m <= x
  {
    if |s| <= 1 then (if s == [] then 0 else s[0])
    else
      var rest, last := MinOf(s[..|s| - 1]), s[|s| - 1];
      assert s == s[..|s| - 1] + [last];
      if last < rest then last else rest
  }

  /** The greatest element of `s`, and 0 for no element. */
  function MaxOf(s: seq<int>): (m: int)
    ensures s == [] ==> m == 0
    ensures s != [] ==> m in s && forall x :: x in s ==> x <= m
  {
    if |s| <= 1 then (if s == [] then 0 else s[0])
    else
      var rest, last := MaxOf(s[..|s| - 1]), s[|s| - 1];
      assert s == s[..|s| - 1] + [last];
      if rest < last then last else rest
  }

  /** The least timing never exceeds the greatest. */
  lemma MinLeMax(s: seq<int>)
    ensures MinOf(s) <= MaxOf(s)
  {
  }

  /** The least timing: 0 when there is none, otherwise found by a scan
      that moves to each element smaller than the least seen so far. */
  method Min(data: seq<int>) returns (m: int)
    ensures m == MinOf(data)
  {
    if data == [] {
      return 0;
    }
    m := data[0];
    var i := 1;
    while i < |data|
      invariant 1 <= i <= |data|
      invariant m == MinOf(data[..i])
    {
      assert data[..i + 1][..i] == data[..i];
      if data[i] < m {
        m := data[i];
      }
      i := i + 1;
    }
    assert data[..i] == data;
  }

  /** The greatest timing: 0 when there is none, otherwise found by a scan
      that moves to each element greater than the greatest seen so far. */
  method Max(data: seq<int>) returns (m: int)
    ensures m == MaxOf(data)
  {
    if data == [] {
      return 0;
    }
    m := data[0];
    var i := 1;
    while i < |data|
      invariant 1 <= i <= |data|
      invariant m == MaxOf(data[..i])
    {
      assert data[..i + 1][..i] == data[..i];
      if m < data[i] {
        m := data[i];
      }
      i := i + 1;
    }
    assert data[..i] == data;
  }
}

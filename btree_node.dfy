/** A node of the B-tree of minimum degree `t` and the operations the tree
    performs on it: splitting a full child, inserting into a node that is not
    full, searching and in-order traversal, and the height helper. Nodes are
    values here: an operation that rewrites a node in place returns the
    rewritten node. */
module BTreeNode {
  import opened Seqs

  datatype Option<T> = None | Some(value: T)

  /** The keys of the node, its children (none in a leaf) and the leaf flag.
      The minimum degree is the tree's and is passed to each operation. */
  datatype Node = Node(keys: seq<int>, children: seq<Node>, isLeaf: bool)

  /** The shape every node keeps: a leaf has no children and an internal node
      has one more child than it has keys, all the way down. */
  ghost predicate Shaped(n: Node) {
    && (n.isLeaf ==> n.children == [])
    && (!n.isLeaf ==> |n.children| == |n.keys| + 1 && forall i :: 0 <= i < |n.children| ==> Shaped(n.children[i]))
  }

  /** Every path from `n` down to a leaf passes through exactly `d` nodes. */
  ghost predicate AllLeavesAt(n: Node, d: nat) {
    if n.isLeaf then d == 1
    else d > 1 && forall i :: 0 <= i < |n.children| ==> AllLeavesAt(n.children[i], d - 1)
  }

  /** All leaves lie at the depth that the height helper reports. */
  ghost predicate Balanced(n: Node) {
    AllLeavesAt(n, Height(n))
  }

  /** No node holds more than `2t - 1` keys, and every node below the root
      holds at least `t - 1`. */
  ghost predicate KeyBounds(n: Node, t: nat, isRoot: bool) {
    && |n.keys| <= 2 * t - 1
    && (isRoot || t - 1 <= |n.keys|)
    && forall i :: 0 <= i < |n.children| ==> KeyBounds(n.children[i], t, false)
  }

  /** The in-order key sequence of a node: a leaf's keys, or for each key the
      child on its left and then the key, and finally the last child. */
  function Traverse(n: Node): seq<int>
    requires Shaped(n)
    decreases n, 1, 0
  {
    if n.isLeaf then n.keys else Segment(n, 0, |n.children|)
  }

  /** The in-order sequence of children `lo` to `hi - 1` of an internal node,
      with the keys that separate them. */
  function Segment(n: Node, lo: nat, hi: nat): seq<int>
    requires Shaped(n) && !n.isLeaf && lo < hi <= |n.children|
    decreases n, 0, hi
  {
    if hi == lo + 1 then Traverse(n.children[lo])
    else Segment(n, lo, hi - 1) + [n.keys[hi - 2]] + Traverse(n.children[hi - 1])
  }

  /** The height helper: 1 for a leaf, otherwise one more than the height of
      the first child. */
  function Height(n: Node): (h: nat)
    ensures h >= 1
  {
    if n.isLeaf then 1
    else if n.children == [] then 1
    else 1 + Height(n.children[0])
  }

  /** The height helper on a possibly absent node: 0 for no node. */
  function TreeHeight(node: Option<Node>): (h: nat)
    ensures h == 0 <==> node.None?
  {
    match node
    case None => 0
    case Some(n) => Height(n)
  }

  /** Following the first child reaches a leaf at the depth of every leaf. */
  lemma {:induction false} HeightIsLeafDepth(n: Node, d: nat)
    requires Shaped(n) && AllLeavesAt(n, d)
    ensures Height(n) == d
    decreases n
  {
    if !n.isLeaf {
      HeightIsLeafDepth(n.children[0], d - 1);
    }
  }

  // ---------------------------------------------------------------------
  // In-order sequences of pieces of a node

  /** A segment splits at any key inside it. */
  lemma {:induction false} SegmentSplit(n: Node, lo: nat, k: nat, hi: nat)
    requires Shaped(n) && !n.isLeaf && lo < k < hi <= |n.children|
    ensures Segment(n, lo, hi) == Segment(n, lo, k) + [n.keys[k - 1]] + Segment(n, k, hi)
    decreases hi
  {
    if hi > k + 1 {
      SegmentSplit(n, lo, k, hi - 1);
    }
  }

  /** Children `lo` to `hi - 1` of `a`, and the keys between them, sit in `b`
      from position `blo` on. */
  ghost predicate SameRange(a: Node, lo: nat, hi: nat, b: Node, blo: nat) {
    && lo < hi <= |a.children| == |a.keys| + 1
    && blo + (hi - lo) <= |b.children| == |b.keys| + 1
    && (forall j :: lo <= j < hi ==> b.children[blo + (j - lo)] == a.children[j])
    && (forall j :: lo <= j < hi - 1 ==> b.keys[blo + (j - lo)] == a.keys[j])
  }

  /** Two nodes that agree over two ranges of the same length have the same
      segment over those ranges. */
  lemma {:induction false} SegmentCongruent(a: Node, lo: nat, hi: nat, b: Node, blo: nat, bhi: nat)
    requires Shaped(a) && !a.isLeaf && Shaped(b) && !b.isLeaf
    requires SameRange(a, lo, hi, b, blo) && bhi == blo + (hi - lo)
    ensures Segment(b, blo, bhi) == Segment(a, lo, hi)
    decreases hi
  {
    assert b.children[bhi - 1] == a.children[hi - 1];
    if hi > lo + 1 {
      assert b.keys[bhi - 2] == a.keys[hi - 2];
      SegmentCongruent(a, lo, hi - 1, b, blo, bhi - 1);
    }
  }

  /** What precedes child `i` in the in-order sequence. */
  ghost function Before(n: Node, i: nat): seq<int>
    requires Shaped(n) && !n.isLeaf && i < |n.children|
  {
    if i == 0 then [] else Segment(n, 0, i) + [n.keys[i - 1]]
  }

  /** What follows child `i` in the in-order sequence. */
  ghost function After(n: Node, i: nat): seq<int>
    requires Shaped(n) && !n.isLeaf && i < |n.children|
  {
    if i == |n.keys| then [] else [n.keys[i]] + Segment(n, i + 1, |n.children|)
  }

  /** The in-order sequence seen from child `i`. */
  lemma TraverseAt(n: Node, i: nat)
    requires Shaped(n) && !n.isLeaf && i < |n.children|
    ensures Traverse(n) == Before(n, i) + Traverse(n.children[i]) + After(n, i)
  {
    var h := |n.children|;
    var before, after := Before(n, i), After(n, i);
    if i > 0 && i + 1 < h {
      SegmentSplit(n, 0, i, h);
      SegmentSplit(n, i, i + 1, h);
      Regroup(Segment(n, 0, i), [n.keys[i - 1]], Segment(n, i, i + 1), [n.keys[i]], Segment(n, i + 1, h));
    } else if i > 0 {
      SegmentSplit(n, 0, i, h);
      assert after == [];
    } else if i + 1 < h {
      SegmentSplit(n, i, i + 1, h);
      assert before == [];
    } else {
      assert before == [] && after == [];
    }
  }

  /** A child's in-order sequence is a piece of its parent's: it is sorted when
      the parent's is, and all its keys are the parent's. */
  lemma ChildTraverse(n: Node, i: nat)
    requires Shaped(n) && !n.isLeaf && i < |n.children|
    ensures multiset(Traverse(n.children[i])) <= multiset(Traverse(n))
    ensures Sorted(Traverse(n)) ==> Sorted(Traverse(n.children[i]))
  {
    var b, m, a := Before(n, i), Traverse(n.children[i]), After(n, i);
    TraverseAt(n, i);
    if Sorted(Traverse(n)) {
      SortedConcat(b + m, a);
      SortedConcat(b, m);
    }
  }

  /** With a sorted in-order sequence, whatever precedes child `i` is at most
      key `i - 1`, and whatever follows it is at least key `i`. */
  lemma AroundChild(n: Node, i: nat)
    requires Shaped(n) && !n.isLeaf && i < |n.children| && Sorted(Traverse(n))
    ensures forall x :: x in Before(n, i) ==> x <= n.keys[i - 1]
    ensures forall x :: x in After(n, i) ==> n.keys[i] <= x
    ensures forall x :: x in Traverse(n.children[i]) ==>
              (i > 0 ==> n.keys[i - 1] <= x) && (i < |n.keys| ==> x <= n.keys[i])
  {
    var b, m, a := Before(n, i), Traverse(n.children[i]), After(n, i);
    TraverseAt(n, i);
    SortedConcat(b + m, a);
    SortedConcat(b, m);
    if b != [] {
      SortedEnds(b);
      assert b[|b| - 1] == n.keys[i - 1];
      forall x | x in m ensures n.keys[i - 1] <= x {
        assert n.keys[i - 1] in b;
      }
    }
    if a != [] {
      SortedEnds(a);
      assert a[0] == n.keys[i];
      forall x | x in m ensures x <= n.keys[i] {
        assert x in b + m && n.keys[i] in a;
      }
    }
  }

  /** Every key of a node is emitted by the in-order walk. */
  lemma KeysInTraverse(n: Node)
    requires Shaped(n)
    ensures forall k :: k in n.keys ==> k in Traverse(n)
  {
    if !n.isLeaf {
      forall k | k in n.keys ensures k in Traverse(n) {
        var j :| 0 <= j < |n.keys| && n.keys[j] == k;
        TraverseAt(n, j);
        assert k in After(n, j);
      }
    }
  }

  /** The keys within one node are sorted when its in-order sequence is. */
  lemma NodeKeysSorted(n: Node)
    requires Shaped(n) && Sorted(Traverse(n))
    ensures Sorted(n.keys)
  {
    if !n.isLeaf {
      forall i, j | 0 <= i < j < |n.keys| ensures n.keys[i] <= n.keys[j] {
        KeysOrdered(n, i, j);
      }
    }
  }

  /** Key `i` precedes child `j` and key `j` follows it. */
  lemma KeysOrdered(n: Node, i: nat, j: nat)
    requires Shaped(n) && !n.isLeaf && Sorted(Traverse(n)) && i < j < |n.keys|
    ensures n.keys[i] <= n.keys[j]
  {
    var b, m, a := Before(n, j), Traverse(n.children[j]), After(n, j);
    TraverseAt(n, j);
    KeyInBefore(n, i, j);
    var k :| 0 <= k < |b| && b[k] == n.keys[i];
    assert (b + m + a)[k] == n.keys[i];
    assert (b + m + a)[|b| + |m|] == n.keys[j];
  }

  /** Key `i` is among what precedes every later child `j`. */
  lemma KeyInBefore(n: Node, i: nat, j: nat)
    requires Shaped(n) && !n.isLeaf && i < j < |n.children|
    ensures exists k :: 0 <= k < |Before(n, j)| && Before(n, j)[k] == n.keys[i]
  {
    var b := Before(n, j);
    if i + 1 < j {
      SegmentSplit(n, 0, i + 1, j);
      assert b[|Segment(n, 0, i + 1)|] == n.keys[i];
    } else {
      assert b[|b| - 1] == n.keys[i];
    }
  }

  /** Two internal nodes that differ only in child `i` agree on what
      precedes and what follows that child. */
  lemma SameAround(n: Node, r: Node, i: nat)
    requires Shaped(n) && !n.isLeaf && Shaped(r) && !r.isLeaf && i < |n.children|
    requires r.keys == n.keys && |r.children| == |n.children|
    requires forall j :: 0 <= j < |n.children| && j != i ==> r.children[j] == n.children[j]
    ensures Before(r, i) == Before(n, i) && After(r, i) == After(n, i)
  {
    if i > 0 {
      SegmentCongruent(n, 0, i, r, 0, i);
    }
    if i < |n.keys| {
      SegmentCongruent(n, i + 1, |n.children|, r, i + 1, |n.children|);
    }
  }

  /** Replacing a child by a well-shaped node keeps the parent well shaped. */
  lemma ReplaceChildShaped(n: Node, i: nat, c: Node)
    requires Shaped(n) && !n.isLeaf && i < |n.children| && Shaped(c)
    ensures Shaped(Node(n.keys, n.children[i := c], false))
  {
    var r := Node(n.keys, n.children[i := c], false);
    forall j | 0 <= j < |r.children| ensures Shaped(r.children[j]) {
      if j != i {
        assert r.children[j] == n.children[j];
      }
    }
  }

  /** Replacing child `i` changes only the middle of the in-order sequence. */
  lemma ReplaceChild(n: Node, i: nat, c: Node)
    requires Shaped(n) && !n.isLeaf && i < |n.children| && Shaped(c)
    ensures Shaped(Node(n.keys, n.children[i := c], false))
    ensures Traverse(Node(n.keys, n.children[i := c], false)) == Before(n, i) + Traverse(c) + After(n, i)
  {
    var r := Node(n.keys, n.children[i := c], false);
    ReplaceChildShaped(n, i, c);
    SameAround(n, r, i);
    TraverseAt(r, i);
  }

  /** Both halves of a full node are well shaped. */
  lemma HalvesShaped(c: Node, t: nat)
    requires t >= 2 && Shaped(c) && |c.keys| == 2 * t - 1
    ensures Shaped(LowerHalf(c, t)) && Shaped(UpperHalf(c, t))
  {
    if !c.isLeaf {
      var left, right := LowerHalf(c, t), UpperHalf(c, t);
      assert |left.children| == t && |right.children| == t;
      forall j | 0 <= j < t ensures Shaped(left.children[j]) {
        assert left.children[j] == c.children[j];
      }
      forall j | 0 <= j < t ensures Shaped(right.children[j]) {
        assert right.children[j] == c.children[t + j];
      }
    }
  }

  /** The two halves a full node splits into, and its median. */
  lemma SplitHalves(c: Node, t: nat)
    requires t >= 2 && Shaped(c) && |c.keys| == 2 * t - 1
    ensures Shaped(LowerHalf(c, t)) && Shaped(UpperHalf(c, t))
    ensures Traverse(c) == Traverse(LowerHalf(c, t)) + [c.keys[t - 1]] + Traverse(UpperHalf(c, t))
  {
    if c.isLeaf {
      assert c.keys == c.keys[..t - 1] + [c.keys[t - 1]] + c.keys[t..];
    } else {
      LowerHalfTraverse(c, t);
      UpperHalfTraverse(c, t);
      SegmentSplit(c, 0, t, |c.children|);
    }
  }

  /** The lower half of a full internal node traverses as its first `t` children. */
  lemma LowerHalfTraverse(c: Node, t: nat)
    requires t >= 2 && Shaped(c) && !c.isLeaf && |c.keys| == 2 * t - 1
    ensures Shaped(LowerHalf(c, t)) && Traverse(LowerHalf(c, t)) == Segment(c, 0, t)
  {
    var left := LowerHalf(c, t);
    assert |left.children| == t;
    forall j | 0 <= j < t ensures left.children[j] == c.children[j] && Shaped(left.children[j]) {
    }
    SegmentCongruent(c, 0, t, left, 0, |left.children|);
  }

  /** The upper half of a full internal node traverses as its last `t` children. */
  lemma UpperHalfTraverse(c: Node, t: nat)
    requires t >= 2 && Shaped(c) && !c.isLeaf && |c.keys| == 2 * t - 1
    ensures Shaped(UpperHalf(c, t)) && Traverse(UpperHalf(c, t)) == Segment(c, t, |c.children|)
  {
    var right := UpperHalf(c, t);
    assert |right.children| == t;
    forall j | 0 <= j < t ensures Shaped(right.children[j]) {
      assert right.children[j] == c.children[t + j];
    }
    SegmentCongruent(c, t, |c.children|, right, 0, |right.children|);
  }

  /** The first `t - 1` keys of a full node (and its first `t` children). */
  ghost function LowerHalf(c: Node, t: nat): Node
    requires t >= 2 && Shaped(c) && |c.keys| == 2 * t - 1
  {
    Node(c.keys[..t - 1], if c.isLeaf then [] else c.children[..t], c.isLeaf)
  }

  /** The last `t - 1` keys of a full node (and its last `t` children). */
  ghost function UpperHalf(c: Node, t: nat): Node
    requires t >= 2 && Shaped(c) && |c.keys| == 2 * t - 1
  {
    Node(c.keys[t..], if c.isLeaf then [] else c.children[t..], c.isLeaf)
  }

  /** The node SplitChild produces from `parent`. */
  ghost predicate SplitOf(parent: Node, index: nat, t: nat, p: Node)
    requires t >= 2 && Shaped(parent) && !parent.isLeaf
    requires index < |parent.children| && |parent.children[index].keys| == 2 * t - 1
  {
    var c := parent.children[index];
    assert Shaped(c);
    && !p.isLeaf
    && |p.keys| == |parent.keys| + 1 && |p.children| == |parent.children| + 1
    && (forall j :: 0 <= j < index ==> p.keys[j] == parent.keys[j])
    && (forall j :: 0 <= j < index ==> p.children[j] == parent.children[j])
    && p.keys[index] == c.keys[t - 1]
    && p.children[index] == LowerHalf(c, t)
    && p.children[index + 1] == UpperHalf(c, t)
    && (forall j :: index <= j < |parent.keys| ==> p.keys[j + 1] == parent.keys[j])
    && (forall j :: index < j < |parent.children| ==> p.children[j + 1] == parent.children[j])
  }

  /** The node a split produces is well shaped. */
  lemma SplitShaped(parent: Node, index: nat, t: nat, p: Node)
    requires t >= 2 && Shaped(parent) && !parent.isLeaf
    requires index < |parent.children| && |parent.children[index].keys| == 2 * t - 1
    requires SplitOf(parent, index, t, p)
    ensures Shaped(p) && |p.children| == |parent.children| + 1
    ensures p.children[index] == LowerHalf(parent.children[index], t)
    ensures p.children[index + 1] == UpperHalf(parent.children[index], t)
    ensures p.keys[index] == parent.children[index].keys[t - 1]
  {
    HalvesShaped(parent.children[index], t);
    forall j | 0 <= j < |p.children| ensures Shaped(p.children[j]) {
      if j < index {
        assert p.children[j] == parent.children[j];
      } else if j > index + 1 {
        assert p.children[j] == parent.children[j - 1];
      }
    }
  }

  /** After the split position, the children and keys of a split node are
      those of its parent, one position further right. */
  lemma SplitShift(parent: Node, index: nat, t: nat, p: Node)
    requires t >= 2 && Shaped(parent) && !parent.isLeaf && Shaped(p)
    requires index + 1 < |parent.children| && |parent.children[index].keys| == 2 * t - 1
    requires SplitOf(parent, index, t, p)
    ensures SameRange(parent, index + 1, |parent.children|, p, index + 2)
  {
    forall j | index + 1 <= j < |parent.children| ensures p.children[index + 2 + (j - (index + 1))] == parent.children[j] {
      assert p.children[j + 1] == parent.children[j];
    }
    forall j | index + 1 <= j < |parent.children| - 1 ensures p.keys[index + 2 + (j - (index + 1))] == parent.keys[j] {
      assert p.keys[j + 1] == parent.keys[j];
    }
  }

  /** After a split, what follows the lower half is the median, the upper
      half, and what followed the full child. */
  lemma SplitAfter(parent: Node, index: nat, t: nat, p: Node)
    requires t >= 2 && Shaped(parent) && !parent.isLeaf
    requires index < |parent.children| && |parent.children[index].keys| == 2 * t - 1
    requires SplitOf(parent, index, t, p) && Shaped(p) && |p.children| == |parent.children| + 1
    ensures After(p, index) == [p.keys[index]] + Traverse(p.children[index + 1]) + After(parent, index)
  {
    if index + 1 < |parent.children| {
      SegmentSplit(p, index + 1, index + 2, |p.children|);
      SplitShift(parent, index, t, p);
      SegmentCongruent(parent, index + 1, |parent.children|, p, index + 2, |p.children|);
      Regroup([], [p.keys[index]], Traverse(p.children[index + 1]), [parent.keys[index]], Segment(parent, index + 1, |parent.children|));
    } else {
      assert After(parent, index) == [];
    }
  }

  /** A split leaves the in-order sequence as it was. */
  lemma SplitTraverse(parent: Node, index: nat, t: nat, p: Node)
    requires t >= 2 && Shaped(parent) && !parent.isLeaf
    requires index < |parent.children| && |parent.children[index].keys| == 2 * t - 1
    requires SplitOf(parent, index, t, p)
    ensures Shaped(p) && Traverse(p) == Traverse(parent)
  {
    var c, i := parent.children[index], index;
    SplitShaped(parent, index, t, p);
    SplitHalves(c, t);
    TraverseAt(parent, i);
    TraverseAt(p, i);
    SplitAfter(parent, index, t, p);
    assert Before(p, i) == Before(parent, i) by {
      if i > 0 {
        SegmentCongruent(parent, 0, i, p, 0, i);
      }
    }
    Regroup(Before(parent, i), Traverse(LowerHalf(c, t)), [c.keys[t - 1]], Traverse(UpperHalf(c, t)), After(parent, i));
  }

  /** A split keeps every leaf at its depth. */
  lemma SplitKeepsBalance(parent: Node, index: nat, t: nat, p: Node)
    requires t >= 2 && Shaped(parent) && !parent.isLeaf
    requires index < |parent.children| && |parent.children[index].keys| == 2 * t - 1
    requires SplitOf(parent, index, t, p) && Shaped(p)
    ensures Balanced(parent) ==> Balanced(p) && Height(p) == Height(parent)
  {
    if Balanced(parent) {
      var h := Height(parent);
      var c := parent.children[index];
      var left, right := LowerHalf(c, t), UpperHalf(c, t);
      assert AllLeavesAt(c, h - 1);
      assert AllLeavesAt(left, h - 1) by {
        if !c.isLeaf {
          forall j | 0 <= j < |left.children| ensures AllLeavesAt(left.children[j], h - 2) {
            assert left.children[j] == c.children[j];
          }
        }
      }
      assert AllLeavesAt(right, h - 1) by {
        if !c.isLeaf {
          forall j | 0 <= j < |right.children| ensures AllLeavesAt(right.children[j], h - 2) {
            assert right.children[j] == c.children[t + j];
          }
        }
      }
      forall j | 0 <= j < |p.children| ensures AllLeavesAt(p.children[j], h - 1) {
        if j < index {
          assert p.children[j] == parent.children[j];
        } else if j > index + 1 {
          assert p.children[j] == parent.children[j - 1];
        }
      }
      assert AllLeavesAt(p, h);
      HeightIsLeafDepth(p, h);
    }
  }

  /** Both halves of a full node that keeps the bounds keep them too, and
      neither is full. */
  lemma HalvesKeyBounds(c: Node, t: nat)
    requires t >= 2 && Shaped(c) && |c.keys| == 2 * t - 1 && KeyBounds(c, t, false)
    ensures KeyBounds(LowerHalf(c, t), t, false) && |LowerHalf(c, t).keys| < 2 * t - 1
    ensures KeyBounds(UpperHalf(c, t), t, false) && |UpperHalf(c, t).keys| < 2 * t - 1
  {
    var left, right := LowerHalf(c, t), UpperHalf(c, t);
    forall j | 0 <= j < |left.children| ensures KeyBounds(left.children[j], t, false) {
      assert left.children[j] == c.children[j];
    }
    forall j | 0 <= j < |right.children| ensures KeyBounds(right.children[j], t, false) {
      assert right.children[j] == c.children[t + j];
    }
  }

  /** A split of a full child of a non-full node keeps every node within its
      key bounds. */
  lemma SplitKeepsKeyBounds(parent: Node, index: nat, t: nat, p: Node)
    requires t >= 2 && Shaped(parent) && !parent.isLeaf
    requires index < |parent.children| && |parent.children[index].keys| == 2 * t - 1
    requires SplitOf(parent, index, t, p)
    ensures KeyBounds(parent, t, true) && |parent.keys| < 2 * t - 1 ==> KeyBounds(p, t, true)
  {
    if KeyBounds(parent, t, true) && |parent.keys| < 2 * t - 1 {
      assert KeyBounds(parent.children[index], t, false);
      HalvesKeyBounds(parent.children[index], t);
      forall j | 0 <= j < |p.children| ensures KeyBounds(p.children[j], t, false) {
        if j < index {
          assert p.children[j] == parent.children[j];
        } else if j > index + 1 {
          assert p.children[j] == parent.children[j - 1];
        }
      }
    }
  }

  // ---------------------------------------------------------------------
  // Depth, for the termination of insertion

  /** The number of edges on the longest downward path. */
  ghost function Depth(n: Node): nat
    decreases n, 1
  {
    if n.children == [] then 0 else 1 + MaxDepth(n.children)
  }

  /** The greatest depth among a sequence of nodes. */
  ghost function MaxDepth(cs: seq<Node>): nat
    decreases cs, 0
  {
    if cs == [] then 0
    else
      var d, rest := Depth(cs[0]), MaxDepth(cs[1..]);
      if d < rest then rest else d
  }

  /** No node of `cs` is deeper than their greatest depth. */
  lemma {:induction false} MaxDepthBounds(cs: seq<Node>)
    ensures forall i :: 0 <= i < |cs| ==> Depth(cs[i]) <= MaxDepth(cs)
    decreases |cs|
  {
    if cs != [] {
      MaxDepthBounds(cs[1..]);
      forall i | 1 <= i < |cs| ensures Depth(cs[i]) <= MaxDepth(cs) {
        assert cs[i] == cs[1..][i - 1];
      }
    }
  }

  /** A bound on the depth of every node of `cs` bounds their greatest depth. */
  lemma {:induction false} MaxDepthLeast(cs: seq<Node>, d: nat)
    requires forall i :: 0 <= i < |cs| ==> Depth(cs[i]) <= d
    ensures MaxDepth(cs) <= d
    decreases |cs|
  {
    if cs != [] {
      forall i | 0 <= i < |cs[1..]| ensures Depth(cs[1..][i]) <= d {
        assert cs[1..][i] == cs[i + 1];
      }
      MaxDepthLeast(cs[1..], d);
    }
  }

  /** Each child is shallower than its parent, and so are both halves of a
      full child. */
  lemma ChildDepth(n: Node, i: nat, t: nat)
    requires Shaped(n) && !n.isLeaf && i < |n.children|
    ensures Depth(n.children[i]) < Depth(n)
    ensures t >= 2 && |n.children[i].keys| == 2 * t - 1 ==>
              Depth(LowerHalf(n.children[i], t)) < Depth(n) && Depth(UpperHalf(n.children[i], t)) < Depth(n)
  {
    var c := n.children[i];
    MaxDepthBounds(n.children);
    if t >= 2 && |c.keys| == 2 * t - 1 {
      assert Shaped(c);
      if !c.isLeaf {
        var left, right := LowerHalf(c, t), UpperHalf(c, t);
        MaxDepthBounds(c.children);
        forall j | 0 <= j < |left.children| ensures Depth(left.children[j]) <= MaxDepth(c.children) {
          assert left.children[j] == c.children[j];
        }
        forall j | 0 <= j < |right.children| ensures Depth(right.children[j]) <= MaxDepth(c.children) {
          assert right.children[j] == c.children[t + j];
        }
        MaxDepthLeast(left.children, MaxDepth(c.children));
        MaxDepthLeast(right.children, MaxDepth(c.children));
      }
    }
  }

  // ---------------------------------------------------------------------
  // Choosing the child to descend into

  /** The index the right-to-left scan of insertion stops after: one past the
      last key not greater than `key`, or 0 if every key is greater. */
  function ChildIndex(ks: seq<int>, key: int): (i: nat)
    ensures i <= |ks|
    ensures i > 0 ==> ks[i - 1] <= key
    ensures forall j :: i <= j < |ks| ==> ks[j] > key
  {
    if ks == [] || ks[|ks| - 1] <= key then |ks| else ChildIndex(ks[..|ks| - 1], key)
  }

  /** Only one index meets the description of ChildIndex. */
  lemma ChildIndexUnique(ks: seq<int>, key: int, i: nat)
    requires i <= |ks| && (i > 0 ==> ks[i - 1] <= key) && forall j :: i <= j < |ks| ==> ks[j] > key
    ensures i == ChildIndex(ks, key)
  {
  }

  // ---------------------------------------------------------------------
  // Replacing one child

  /** Putting in place of child `i` a node that holds one more key, a key that
      lies between the parent's keys around child `i`, adds that key to the
      parent's in-order sequence and keeps it sorted. */
  lemma InsertIntoChild(n: Node, i: nat, c: Node, key: int)
    requires Shaped(n) && !n.isLeaf && i < |n.children| && Shaped(c)
    requires multiset(Traverse(c)) == multiset(Traverse(n.children[i])) + multiset{key}
    requires i > 0 ==> n.keys[i - 1] <= key
    requires i < |n.keys| ==> key <= n.keys[i]
    ensures Shaped(Node(n.keys, n.children[i := c], false))
    ensures multiset(Traverse(Node(n.keys, n.children[i := c], false))) == multiset(Traverse(n)) + multiset{key}
    ensures Sorted(Traverse(n)) && Sorted(Traverse(c)) ==> Sorted(Traverse(Node(n.keys, n.children[i := c], false)))
  {
    var b, m, a := Before(n, i), Traverse(n.children[i]), After(n, i);
    TraverseAt(n, i);
    ReplaceChild(n, i, c);
    MultisetReplaceMiddle(b, m, Traverse(c), a, key);
    if Sorted(Traverse(n)) && Sorted(Traverse(c)) {
      AroundChild(n, i);
      SortedReplaceMiddle(b, m, Traverse(c), a, key);
    }
  }

  /** Putting in place of a child a balanced node of the same height keeps the
      parent balanced at its height. */
  lemma ReplaceChildBalance(n: Node, i: nat, c: Node)
    requires Shaped(n) && !n.isLeaf && i < |n.children| && Shaped(c)
    requires Balanced(n) && Balanced(c) && Height(c) == Height(n.children[i])
    ensures Balanced(Node(n.keys, n.children[i := c], false))
    ensures Height(Node(n.keys, n.children[i := c], false)) == Height(n)
  {
    var r := Node(n.keys, n.children[i := c], false);
    var h := Height(n);
    assert AllLeavesAt(n.children[i], h - 1);
    HeightIsLeafDepth(n.children[i], h - 1);
    forall j | 0 <= j < |r.children| ensures AllLeavesAt(r.children[j], h - 1) && Shaped(r.children[j]) {
      if j != i {
        assert r.children[j] == n.children[j];
      }
    }
    assert AllLeavesAt(r, h);
    HeightIsLeafDepth(r, h);
  }

  /** Below a balanced node every child is balanced, one level lower. */
  lemma ChildBalanced(n: Node, i: nat)
    requires Shaped(n) && !n.isLeaf && i < |n.children| && Balanced(n)
    ensures Balanced(n.children[i]) && Height(n.children[i]) == Height(n) - 1
  {
    assert AllLeavesAt(n.children[i], Height(n) - 1);
    HeightIsLeafDepth(n.children[i], Height(n) - 1);
  }

  /** The keys that bound the search for `key` in a node with sorted in-order
      sequence: if the keys before position `i` are smaller than `key` and
      key `i` greater, `key` can only occur below child `i`. */
  lemma SearchDescends(n: Node, i: nat, key: int)
    requires Shaped(n) && !n.isLeaf && i < |n.children| && Sorted(Traverse(n))
    requires i > 0 ==> n.keys[i - 1] < key
    requires i < |n.keys| ==> key < n.keys[i]
    ensures key in Traverse(n) <==> key in Traverse(n.children[i])
  {
    TraverseAt(n, i);
    AroundChild(n, i);
    assert key !in Before(n, i) && key !in After(n, i);
  }

  // ---------------------------------------------------------------------
  // The operations

  /** The node that `SplitChild` assembles from the two halves of the full
      child is the split of `parent` at `index`, with all it implies. */
  lemma SplitBuilt(parent: Node, index: nat, t: nat, left: Node, sibling: Node)
    requires t >= 2 && Shaped(parent) && !parent.isLeaf
    requires index < |parent.children| && |parent.children[index].keys| == 2 * t - 1
    requires left == LowerHalf(parent.children[index], t) && sibling == UpperHalf(parent.children[index], t)
    ensures var p := Node(InsertAt(parent.keys, index, parent.children[index].keys[t - 1]),
                          InsertAt(parent.children[index := left], index + 1, sibling), parent.isLeaf);
      && SplitOf(parent, index, t, p)
      && p.keys == InsertAt(parent.keys, index, parent.children[index].keys[t - 1])
      && |p.keys| == |parent.keys| + 1 && |p.children| == |parent.children| + 1
      && Shaped(p) && Traverse(p) == Traverse(parent)
      && (Balanced(parent) ==> Balanced(p) && Height(p) == Height(parent))
      && (KeyBounds(parent, t, true) && |parent.keys| < 2 * t - 1 ==> KeyBounds(p, t, true))
  {
    var p := Node(InsertAt(parent.keys, index, parent.children[index].keys[t - 1]),
                  InsertAt(parent.children[index := left], index + 1, sibling), parent.isLeaf);
    SplitTraverse(parent, index, t, p);
    SplitKeepsBalance(parent, index, t, p);
    SplitKeepsKeyBounds(parent, index, t, p);
  }

  /** Splits the full child at `index`: its last `t - 1` keys (and last `t`
      children) move to a new sibling placed at `index + 1`, its median key
      moves up to `keys[index]`, and it keeps its first `t - 1` keys (and
      first `t` children). */
  method SplitChild(parent: Node, index: nat, t: nat) returns (p: Node)
    requires t >= 2 && Shaped(parent) && !parent.isLeaf
    requires index < |parent.children| && |parent.children[index].keys| == 2 * t - 1
    ensures SplitOf(parent, index, t, p)
    ensures p.keys == InsertAt(parent.keys, index, parent.children[index].keys[t - 1])
    ensures |p.keys| == |parent.keys| + 1 && |p.children| == |parent.children| + 1
    ensures Shaped(p) && Traverse(p) == Traverse(parent)
    ensures Balanced(parent) ==> Balanced(p) && Height(p) == Height(parent)
    ensures KeyBounds(parent, t, true) && |parent.keys| < 2 * t - 1 ==> KeyBounds(p, t, true)
  {
    var child := parent.children[index];
    var siblingKeys: seq<int> := [];
    var j := 0;
    while j < t - 1
      invariant 0 <= j <= t - 1
      invariant siblingKeys == child.keys[t..t + j]
    {
      siblingKeys := siblingKeys + [child.keys[j + t]];
      j := j + 1;
    }
    var siblingChildren: seq<Node> := [];
    if !child.isLeaf {
      j := 0;
      while j < t
        invariant 0 <= j <= t
        invariant siblingChildren == child.children[t..t + j]
      {
        siblingChildren := siblingChildren + [child.children[j + t]];
        j := j + 1;
      }
    }
    var middleKey := child.keys[t - 1];
    var left := Node(child.keys[..t - 1], if child.isLeaf then child.children else child.children[..t], child.isLeaf);
    var sibling := Node(siblingKeys, siblingChildren, child.isLeaf);
    var children := parent.children[index := left];
    p := Node(InsertAt(parent.keys, index, middleKey), InsertAt(children, index + 1, sibling), parent.isLeaf);

    SplitBuilt(parent, index, t, left, sibling);
  }

  /** After the full child at `ci` is split, the half chosen by comparing
      `key` with the median is smaller than `n`, its neighbouring keys in the
      split node enclose `key`, and it is not full. */
  lemma SplitDescent(n: Node, ci: nat, t: nat, m: Node, key: int)
    requires t >= 2 && Shaped(n) && !n.isLeaf
    requires ci == ChildIndex(n.keys, key) && |n.children[ci].keys| == 2 * t - 1
    requires SplitOf(n, ci, t, m) && Shaped(m)
    ensures var i := if m.keys[ci] < key then ci + 1 else ci;
      && i < |m.children|
      && Depth(m.children[i]) < Depth(n)
      && (i > 0 ==> m.keys[i - 1] <= key)
      && (i < |m.keys| ==> key <= m.keys[i])
      && (KeyBounds(n, t, true) ==> KeyBounds(m.children[i], t, false) && |m.children[i].keys| < 2 * t - 1)
  {
    var c := n.children[ci];
    ChildDepth(n, ci, t);
    SplitShaped(n, ci, t, m);
    if KeyBounds(n, t, true) {
      assert KeyBounds(c, t, false);
      HalvesKeyBounds(c, t);
    }
    if m.keys[ci] < key {
      if ci + 1 < |m.keys| {
        assert m.keys[ci + 1] == n.keys[ci];
      }
    } else if ci > 0 {
      assert m.keys[ci - 1] == n.keys[ci - 1];
    }
  }

  /** What the descent of insertion into child `j` of `m`, the node `n`
      after a possible split, relies on: `m` traverses as `n` does and keeps
      its invariants, the child is below `n`, is not full when `n` keeps its
      key bounds with room for one more key, and its neighbouring keys
      enclose `key`. */
  ghost predicate ReadyToDescend(n: Node, m: Node, j: nat, key: int, t: nat)
    requires Shaped(n)
  {
    && t >= 2 && !n.isLeaf
    && Shaped(m) && !m.isLeaf && j < |m.children| && Depth(m.children[j]) < Depth(n)
    && Traverse(m) == Traverse(n) && |m.keys| >= |n.keys|
    && (Balanced(n) ==> Balanced(m) && Height(m) == Height(n))
    && (KeyBounds(n, t, true) && |n.keys| < 2 * t - 1 ==>
          KeyBounds(m, t, true) && |m.children[j].keys| < 2 * t - 1)
    && (j > 0 ==> m.keys[j - 1] <= key)
    && (j < |m.keys| ==> key <= m.keys[j])
  }

  /** A child that is not full can be descended into as it is. */
  lemma KeepReady(n: Node, i: nat, key: int, t: nat)
    requires t >= 2 && Shaped(n) && !n.isLeaf
    requires i == ChildIndex(n.keys, key) && |n.children[i].keys| != 2 * t - 1
    ensures ReadyToDescend(n, n, i, key, t)
  {
    ChildDepth(n, i, t);
    if KeyBounds(n, t, true) {
      assert KeyBounds(n.children[i], t, false);
    }
  }

  /** A split full child can be descended into through the half chosen by
      comparing `key` with the median that moved up. */
  lemma SplitReady(n: Node, ci: nat, t: nat, m: Node, key: int)
    requires t >= 2 && Shaped(n) && !n.isLeaf
    requires ci == ChildIndex(n.keys, key) && |n.children[ci].keys| == 2 * t - 1
    requires SplitOf(n, ci, t, m) && Shaped(m)
    ensures ReadyToDescend(n, m, if m.keys[ci] < key then ci + 1 else ci, key, t)
  {
    SplitDescent(n, ci, t, m, key);
    SplitTraverse(n, ci, t, m);
    SplitKeepsBalance(n, ci, t, m);
    SplitKeepsKeyBounds(n, ci, t, m);
  }

  /** What inserting `key` below a node that is not full promises: the
      result is well shaped and of the same kind, has at least as many keys,
      holds the keys of `n` and `key`, and keeps the order, the balance and
      the height, and the key bounds of a node with room for one more key. */
  ghost predicate InsertedInto(n: Node, r: Node, key: int, t: nat)
    requires Shaped(n)
  {
    && Shaped(r) && r.isLeaf == n.isLeaf && |r.keys| >= |n.keys|
    && multiset(Traverse(r)) == multiset(Traverse(n)) + multiset{key}
    && (Sorted(Traverse(n)) ==> Sorted(Traverse(r)))
    && (Balanced(n) ==> Balanced(r) && Height(r) == Height(n))
    && (KeyBounds(n, t, true) && |n.keys| < 2 * t - 1 ==> KeyBounds(r, t, true))
  }

  /** A leaf that takes `key` at its sorted place keeps every invariant. */
  lemma LeafInsert(n: Node, key: int, t: nat)
    requires Shaped(n) && n.isLeaf
    ensures InsertedInto(n, Node(InsertSorted(n.keys, key), [], true), key, t)
  {
    if Sorted(Traverse(n)) {
      InsertSortedKeepsOrder(n.keys, key);
    }
  }

  /** Putting in place of a child a node with no fewer keys that keeps the
      bounds of a root keeps the bounds of the parent. */
  lemma ReplaceChildKeyBounds(m: Node, i: nat, c: Node, t: nat)
    requires i < |m.children| && KeyBounds(m, t, true)
    requires KeyBounds(c, t, true) && |c.keys| >= |m.children[i].keys|
    ensures KeyBounds(Node(m.keys, m.children[i := c], false), t, true)
  {
    var r := Node(m.keys, m.children[i := c], false);
    assert KeyBounds(m.children[i], t, false);
    forall j | 0 <= j < |r.children| ensures KeyBounds(r.children[j], t, false) {
      if j != i {
        assert r.children[j] == m.children[j];
      }
    }
  }

  /** Putting the child grown by the recursive insertion back in place of
      child `i` of `m`, which traverses as `n` does, completes the insertion
      into `n` with every invariant kept. */
  lemma DescendInsert(n: Node, m: Node, i: nat, c: Node, key: int, t: nat)
    requires Shaped(n) && ReadyToDescend(n, m, i, key, t)
    requires InsertedInto(m.children[i], c, key, t)
    ensures InsertedInto(n, Node(m.keys, m.children[i := c], false), key, t)
  {
    var r := Node(m.keys, m.children[i := c], false);
    InsertIntoChild(m, i, c, key);
    if Sorted(Traverse(n)) {
      ChildTraverse(m, i);
    }
    if Balanced(n) {
      ChildBalanced(m, i);
      ReplaceChildBalance(m, i, c);
    }
    if KeyBounds(n, t, true) && |n.keys| < 2 * t - 1 {
      assert KeyBounds(m.children[i], t, false);
      ReplaceChildKeyBounds(m, i, c, t);
    }
  }

  /** Prepares the descent into child `i`, the one whose range holds `key`:
      a full child is split first and `j` then names the half whose range
      holds `key`; otherwise `n` and `i` are kept. Either way the chosen
      child is below `n`, is not full when `n` keeps its key bounds, and its
      neighbouring keys enclose `key`. */
  method SplitIfFull(n: Node, i: nat, key: int, t: nat) returns (m: Node, j: nat)
    requires t >= 2 && Shaped(n) && !n.isLeaf && i == ChildIndex(n.keys, key)
    ensures ReadyToDescend(n, m, j, key, t)
    ensures |n.children[i].keys| == 2 * t - 1 ==>
              m.keys == InsertAt(n.keys, i, n.children[i].keys[t - 1]) && j == (if m.keys[i] < key then i + 1 else i)
    ensures |n.children[i].keys| != 2 * t - 1 ==> m == n && j == i
  {
    if |n.children[i].keys| == 2 * t - 1 {
      m := SplitChild(n, i, t);
      SplitReady(n, i, t, m, key);
      j := if m.keys[i] < key then i + 1 else i;
    } else {
      m, j := n, i;
      KeepReady(n, i, key, t);
    }
  }

  /** The sorted insertion into a leaf's keys: the keys greater than `key`
      are shifted one step right, starting from the last, and `key` goes
      into the gap. */
  method InsertIntoLeaf(keys: seq<int>, key: int) returns (ks: seq<int>)
    ensures ks == InsertSorted(keys, key)
  {
    var i: int := |keys| - 1;
    ks := keys + [0];
    while i >= 0 && ks[i] > key
      invariant -1 <= i < |keys| && |ks| == |keys| + 1
      invariant forall j :: 0 <= j <= i ==> ks[j] == keys[j]
      invariant forall j :: i + 1 <= j < |keys| ==> ks[j + 1] == keys[j] && keys[j] > key
      decreases i + 1
    {
      ks := ks[i + 1 := ks[i]];
      i := i - 1;
    }
    ks := ks[i + 1 := key];
    InsertSortedIsInsertAt(keys, i + 1, key);
    InsertAtIs(ks, keys, i + 1, key);
  }

  /** Inserts `key` into the subtree of `n`, which its caller has made sure is
      not full. A leaf takes the key at its place in the sorted order. An
      internal node finds the child to descend into by scanning from its last
      key, splits that child first if it is full, and then descends into the
      half that should hold the key. */
  method InsertNonFull(n: Node, key: int, t: nat) returns (r: Node)
    requires t >= 2 && Shaped(n)
    ensures InsertedInto(n, r, key, t)
    ensures n.isLeaf ==> r.keys == InsertSorted(n.keys, key) && r.children == []
    ensures !n.isLeaf && |n.children[ChildIndex(n.keys, key)].keys| == 2 * t - 1 ==>
              r.keys == InsertAt(n.keys, ChildIndex(n.keys, key), n.children[ChildIndex(n.keys, key)].keys[t - 1])
    ensures !n.isLeaf && |n.children[ChildIndex(n.keys, key)].keys| != 2 * t - 1 ==> r.keys == n.keys
    decreases Depth(n)
  {
    if n.isLeaf {
      var ks := InsertIntoLeaf(n.keys, key);
      r := Node(ks, [], true);
      LeafInsert(n, key, t);
    } else {
      var i: int := |n.keys| - 1;
      while i >= 0 && n.keys[i] > key
        invariant -1 <= i < |n.keys|
        invariant forall j :: i < j < |n.keys| ==> n.keys[j] > key
      {
        i := i - 1;
      }
      i := i + 1;
      ChildIndexUnique(n.keys, key, i);
      var m, j := SplitIfFull(n, i, key, t);
      var c := InsertNonFull(m.children[j], key, t);
      r := Node(m.keys, m.children[j := c], false);
      DescendInsert(n, m, j, c, key, t);
    }
  }

  /** Emits the keys below `n` in order: for each key, first the child on
      its left (in an internal node) and then the key, and at the end the
      last child. */
  method Walk(n: Node) returns (out: seq<int>)
    requires Shaped(n)
    ensures out == Traverse(n)
    decreases n
  {
    out := [];
    var i := 0;
    while i < |n.keys|
      invariant 0 <= i <= |n.keys|
      invariant n.isLeaf ==> out == n.keys[..i]
      invariant !n.isLeaf ==> out == Before(n, i)
    {
      if !n.isLeaf {
        var sub := Walk(n.children[i]);
        out := out + sub;
      }
      out := out + [n.keys[i]];
      i := i + 1;
    }
    if !n.isLeaf {
      var sub := Walk(n.children[i]);
      out := out + sub;
      assert After(n, i) == [];
      TraverseAt(n, i);
    } else {
      assert n.keys[..i] == n.keys;
    }
  }

  /** Looks for `key` below `n`: scans for the first key not less than
      `key`, answers this node if that key is `key`, no node if this is a
      leaf, and otherwise descends into the child before that key. */
  method Search(n: Node, key: int) returns (found: Option<Node>)
    requires Shaped(n)
    ensures found.Some? ==> key in found.value.keys && key in Traverse(n)
    ensures Sorted(Traverse(n)) ==> (found.Some? <==> key in Traverse(n))
    decreases n
  {
    var i := 0;
    while i < |n.keys| && key > n.keys[i]
      invariant 0 <= i <= |n.keys|
      invariant forall j :: 0 <= j < i ==> n.keys[j] < key
    {
      i := i + 1;
    }
    if i < |n.keys| && n.keys[i] == key {
      if !n.isLeaf {
        KeysInTraverse(n);
      }
      return Some(n);
    }
    if n.isLeaf {
      if Sorted(Traverse(n)) {
        forall j | i <= j < |n.keys| ensures n.keys[j] > key {
          assert n.keys[i] <= n.keys[j];
        }
      }
      return None;
    }
    found := Search(n.children[i], key);
    ChildTraverse(n, i);
    if found.Some? {
      assert key in multiset(Traverse(n.children[i]));
    }
    if Sorted(Traverse(n)) {
      NodeKeysSorted(n);
      SearchDescends(n, i, key);
    }
  }

  // ---------------------------------------------------------------------
  // The height is logarithmic in the number of keys

  /** `b` to the power `e`. */
  function Pow(b: nat, e: nat): (r: nat)
    ensures b >= 1 ==> r >= 1
  {
    if e == 0 then 1 else b * Pow(b, e - 1)
  }

  /** Multiplying by a larger factor gives no smaller product. */
  lemma MulMono(a: nat, b: nat, k: nat)
    requires a <= b
    ensures a * k <= b * k
  {
  }

  /** A higher power of a base of at least 1 is no smaller. */
  lemma {:induction false} PowMono(b: nat, e: nat, f: nat)
    requires b >= 1 && e <= f
    ensures Pow(b, e) <= Pow(b, f)
    decreases f
  {
    if e < f {
      PowMono(b, e, f - 1);
      MulMono(1, b, Pow(b, f - 1));
    }
  }

  /** The first `hi` children, each traversing to at least `m` keys, and the
      `hi - 1` keys between them make a segment of at least `hi * (m + 1) - 1`
      keys. */
  lemma {:induction false} SegmentMinSize(n: Node, hi: nat, m: nat)
    requires Shaped(n) && !n.isLeaf && 0 < hi <= |n.children|
    requires forall j :: 0 <= j < hi ==> |Traverse(n.children[j])| >= m
    ensures |Segment(n, 0, hi)| >= hi * (m + 1) - 1
    decreases hi
  {
    if hi > 1 {
      SegmentMinSize(n, hi - 1, m);
    }
  }

  /** A node below the root whose leaves all lie `h` levels down holds at
      least `t^h - 1` keys: a leaf at least `t - 1`, and an internal node at
      least `t` children of `t^(h-1) - 1` keys each, with the keys between
      them. */
  lemma {:induction false} MinSize(n: Node, t: nat, h: nat)
    requires t >= 2 && Shaped(n) && AllLeavesAt(n, h) && KeyBounds(n, t, false)
    ensures |Traverse(n)| >= Pow(t, h) - 1
    decreases n
  {
    if !n.isLeaf {
      var m := Pow(t, h - 1) - 1;
      forall j | 0 <= j < |n.children| ensures |Traverse(n.children[j])| >= m {
        MinSize(n.children[j], t, h - 1);
      }
      SegmentMinSize(n, |n.children|, m);
      MulMono(t, |n.children|, m + 1);
    }
  }

  // ---------------------------------------------------------------------
  // The scan with an unsigned index

  /** The largest value of a 64-bit `size_t`. */
  const SizeMax: nat := 0x1_0000_0000_0000_0000 - 1

  /** Decrementing a `size_t`: below 0 it wraps around to SizeMax. */
  function SizeDec(i: nat): (r: nat)
    requires i <= SizeMax
    ensures r <= SizeMax
    ensures r == (i - 1) % (SizeMax + 1)
  {
    if i == 0 then SizeMax else i - 1
  }

  /** The right-to-left scan of insertion as the code has it, with an
      unsigned index, started at `i`: the guard `i >= 0` always holds, so the
      scan only stops at a key not greater than `key`, and answers the slot
      after it. None stands for a read of `keys` out of range, which is what
      follows once the index wraps below 0. */
  function ScanAsWritten(keys: seq<int>, key: int, i: nat): (r: Option<nat>)
    requires |keys| <= SizeMax && i < |keys|
    ensures r.Some? ==> r.value <= |keys|
    decreases i
  {
    if keys[i] <= key then Some(i + 1)
    else
      var next := SizeDec(i);
      if next >= |keys| then None else ScanAsWritten(keys, key, next)
  }

  /** The scan as written finds the same slot as the intended one whenever
      some key is not greater than `key`, and reads out of range exactly
      when every key is greater, where the intended slot is 0. */
  lemma {:induction false} ScanAsWrittenOverruns(keys: seq<int>, key: int, i: nat)
    requires |keys| <= SizeMax && i < |keys|
    ensures ScanAsWritten(keys, key, i) == None <==> forall j :: 0 <= j <= i ==> keys[j] > key
    ensures ScanAsWritten(keys, key, i) != None ==> ScanAsWritten(keys, key, i) == Some(ChildIndex(keys[..i + 1], key))
    decreases i
  {
    var p := keys[..i + 1];
    assert p[..|p| - 1] == keys[..i];
    if keys[i] > key && i > 0 {
      ScanAsWrittenOverruns(keys, key, i - 1);
      assert keys[..i] == keys[..i - 1 + 1];
    }
  }

  /** A leaf holding 5 that receives 1: the scan as written reads out of
      range, while the intended scan puts 1 in front. */
  lemma ScanAsWrittenExample()
    ensures ScanAsWritten([5], 1, 0) == None
    ensures ChildIndex([5], 1) == 0 && InsertSorted([5], 1) == [1, 5]
  {
    assert SizeDec(0) == SizeMax;
  }
}

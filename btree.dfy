/** The B-tree itself: a possibly absent root node and the minimum degree.
    Inserting grows the tree at the root: an empty tree gets a leaf holding
    the key, a full root is first split under a new root, and otherwise the
    key goes into the root, which has room for it. */
module BTree {
  import opened Seqs
  import opened BTreeNode

  /** What every root node of a tree of minimum degree `t` keeps: well
      shaped, keys in order, all leaves at one depth, the key bounds, and at
      least one key. */
  ghost predicate ValidRoot(n: Node, t: nat) {
    && Shaped(n) && Sorted(Traverse(n)) && Balanced(n) && KeyBounds(n, t, true)
    && |n.keys| >= 1
  }

  /** A new root placed over `r`, which becomes its only child, before that
      child is split: it traverses as `r` does, is one level higher, and
      keeps the bounds of a root when `r` holds at least `t - 1` keys. */
  lemma NewRootOver(r: Node, t: nat)
    requires t >= 2 && ValidRoot(r, t) && |r.keys| == 2 * t - 1
    ensures var n := Node([], [r], false);
      && Shaped(n) && Traverse(n) == Traverse(r) && Sorted(Traverse(n))
      && Balanced(n) && Height(n) == Height(r) + 1 && KeyBounds(n, t, true)
  {
    var n := Node([], [r], false);
    assert n.children[0] == r;
    assert Shaped(n);
    HeightIsLeafDepth(r, Height(r));
    assert AllLeavesAt(n, Height(n));
  }

  /** A root that holds a key traverses to a sequence that is not empty. */
  lemma RootNotEmpty(n: Node, t: nat)
    requires ValidRoot(n, t)
    ensures |Traverse(n)| >= 1
  {
    KeysInTraverse(n);
    assert n.keys[0] in n.keys;
  }

  /** Inserts `key` under a full root `r`: a new root is placed over `r`,
      `r` is split under it, and the key goes into the half whose range holds
      it. The new root holds only the median of `r` and has two children. */
  method GrowRoot(r: Node, key: int, t: nat) returns (g: Node)
    requires t >= 2 && ValidRoot(r, t) && |r.keys| == 2 * t - 1
    ensures ValidRoot(g, t) && Height(g) == Height(r) + 1
    ensures multiset(Traverse(g)) == multiset(Traverse(r)) + multiset{key}
    ensures g.keys == [r.keys[t - 1]] && |g.children| == 2
  {
    var newRoot := Node([], [r], false);
    NewRootOver(r, t);
    var m, j := SplitIfFull(newRoot, 0, key, t);
    assert m.keys == [r.keys[t - 1]] && |m.children| == 2;
    var c := InsertNonFull(m.children[j], key, t);
    DescendInsert(newRoot, m, j, c, key, t);
    g := Node(m.keys, m.children[j := c], false);
  }

  /** A root `h` levels high holds at least `2 t^(h-1) - 1` keys: it has a key
      and so, unless it is a leaf, two children or more, each holding at
      least `t^(h-1) - 1`. So the height grows only with the logarithm, to
      base `t`, of the number of keys. */
  lemma RootMinSize(n: Node, t: nat)
    requires t >= 2 && ValidRoot(n, t)
    ensures |Traverse(n)| >= 2 * Pow(t, Height(n) - 1) - 1
  {
    var h := Height(n);
    if n.isLeaf {
      assert h == 1;
    } else {
      var m := Pow(t, h - 1) - 1;
      forall j | 0 <= j < |n.children| ensures |Traverse(n.children[j])| >= m {
        MinSize(n.children[j], t, h - 1);
      }
      SegmentMinSize(n, |n.children|, m);
    }
  }

  /** A tree whose key count is below `2 t^e - 1` is at most `e` levels
      high: the height is at most one more than the logarithm, to base `t`,
      of half the number of keys. */
  lemma HeightAtMost(n: Node, t: nat, e: nat)
    requires t >= 2 && ValidRoot(n, t) && |Traverse(n)| < 2 * Pow(t, e) - 1
    ensures Height(n) <= e
  {
    RootMinSize(n, t);
    if Height(n) > e {
      PowMono(t, e, Height(n) - 1);
    }
  }

  /** With minimum degree 100, a tree of at most 1000 keys is at most two
      levels high. */
  lemma FlatAtDegreeHundred(n: Node)
    requires ValidRoot(n, 100) && |Traverse(n)| <= 1000
    ensures Height(n) <= 2
  {
    RootMinSize(n, 100);
  }

  class BTree {
    var root: Option<Node>
    var minDegree: nat

    ghost predicate Valid()
      reads this
    {
      && minDegree >= 2
      && (root.Some? ==> ValidRoot(root.value, minDegree))
    }

    /** The keys of the tree in order, with repetitions. */
    ghost function Contents(): seq<int>
      reads this
      requires Valid()
    {
      if root.None? then [] else BTreeNode.Traverse(root.value)
    }

    /** A new tree of minimum degree `degree`, with no root. */
    constructor(degree: nat)
      requires degree >= 2
      ensures Valid() && root == None && minDegree == degree
      ensures Contents() == [] && TreeHeight(root) == 0
    {
      root := None;
      minDegree := degree;
    }

    /** The root, absent exactly when the tree holds no key; a root that is
        present traverses to the tree's contents. */
    function GetRoot(): (r: Option<Node>)
      reads this
      requires Valid()
      ensures r.None? <==> |Contents()| == 0
      ensures r.Some? ==> Shaped(r.value) && BTreeNode.Traverse(r.value) == Contents()
    {
      if root.None? then root
      else RootNotEmpty(root.value, minDegree); root
    }

    /** Whether `key` is in the tree: never in an empty tree, and otherwise
        whether the search from the root finds a node holding it. */
    method Search(key: int) returns (b: bool)
      requires Valid()
      ensures b <==> key in Contents()
    {
      if root.None? {
        b := false;
      } else {
        var found := BTreeNode.Search(root.value, key);
        b := found.Some?;
      }
    }

    /** The keys of the tree in order, as the in-order walk from the root
        emits them (nothing for an empty tree). */
    method Traverse() returns (out: seq<int>)
      requires Valid()
      ensures out == Contents() && Sorted(out)
    {
      if root.None? {
        out := [];
      } else {
        out := Walk(root.value);
      }
    }

    /** Adds `key` to the tree, which keeps every invariant. An empty tree
        gets a leaf holding only `key`; a full root is split under a new root,
        one level higher, and the key goes into the half whose range holds
        it; otherwise the key goes into the root and the height stays. */
    method Insert(key: int)
      requires Valid()
      modifies this
      ensures Valid() && minDegree == old(minDegree)
      ensures multiset(Contents()) == old(multiset(Contents())) + multiset{key}
      ensures old(root).None? ==> root == Some(Node([key], [], true))
      ensures old(root).Some? && |old(root).value.keys| == 2 * minDegree - 1 ==>
                && TreeHeight(root) == old(TreeHeight(root)) + 1
                && root.Some? && root.value.keys == [old(root).value.keys[minDegree - 1]]
                && |root.value.children| == 2
      ensures old(root).Some? && |old(root).value.keys| != 2 * minDegree - 1 ==>
                TreeHeight(root) == old(TreeHeight(root))
    {
      var t := minDegree;
      if root.None? {
        root := Some(Node([key], [], true));
        return;
      }
      var r0 := root.value;
      if |r0.keys| == 2 * t - 1 {
        var r := GrowRoot(r0, key, t);
        root := Some(r);
      } else {
        var r := InsertNonFull(r0, key, t);
        root := Some(r);
      }
    }
  }
}

/** The unbalanced binary search tree: each node holds a key and a left and
    a right subtree; keys smaller than a node's key go left, greater ones go
    right, and a key already present is not inserted again. Subtrees are
    values here: an insertion that rewires a child pointer returns the
    rewired subtree. */
module Bst {
  import opened Seqs

  datatype Tree = Nil | Node(left: Tree, key: int, right: Tree)

  /** The keys stored in a tree. */
  ghost function Elements(t: Tree): set<int> {
    match t
    case Nil => {}
    case Node(l, k, r) => Elements(l) + {k} + Elements(r)
  }

  /** The number of nodes. */
  function Size(t: Tree): nat {
    match t
    case Nil => 0
    case Node(l, _, r) => Size(l) + 1 + Size(r)
  }

  /** The search-tree order: every key of a left subtree is smaller than the
      node's key and every key of a right subtree greater, all the way down. */
  ghost predicate IsBST(t: Tree) {
    match t
    case Nil => true
    case Node(l, k, r) =>
      && IsBST(l) && IsBST(r)
      && (forall x :: x in Elements(l) ==> x < k)
      && (forall x :: x in Elements(r) ==> k < x)
  }

  /** A new node holding `k`, with no children. */
  function Leaf(k: int): (t: Tree)
    ensures IsBST(t) && Elements(t) == {k} && Size(t) == 1
  {
    Node(Nil, k, Nil)
  }

  /** Inserts `key` below `node` and answers the subtree to put in its place:
      a new node where the search ends at an empty subtree, the same node
      with its left or right subtree replaced when `key` is smaller or
      greater than its key, and the node unchanged when `key` equals it. */
  function InsertHelper(node: Tree, key: int): (r: Tree)
    ensures r.Node?
    ensures Elements(r) == Elements(node) + {key}
    ensures node.Node? ==> r.key == node.key
    ensures IsBST(node) ==> IsBST(r)
  {
    match node
    case Nil => Leaf(key)
    case Node(l, k, rt) =>
      if key < k then Node(InsertHelper(l, key), k, rt)
      else if key > k then Node(l, k, InsertHelper(rt, key))
      else node
  }

  /** Looks for `key` below `node`: answers the node holding it, or Nil. */
  function SearchHelper(node: Tree, key: int): (r: Tree)
    ensures r.Node? ==> r.key == key && key in Elements(node)
  {
    match node
    case Nil => Nil
    case Node(l, k, rt) =>
      if k == key then node
      else if key < k then SearchHelper(l, key)
      else SearchHelper(rt, key)
  }

  /** The keys in the order the in-order walk emits them: the left subtree,
      the node's key, the right subtree. */
  function TraverseHelper(t: Tree): (s: seq<int>)
    ensures |s| == Size(t)
  {
    match t
    case Nil => []
    case Node(l, k, r) => TraverseHelper(l) + [k] + TraverseHelper(r)
  }

  /** The number of nodes on the longest path from `t` down: 0 for no node,
      otherwise one more than the taller subtree. */
  function Height(t: Tree): (h: nat)
    ensures h == 0 <==> t == Nil
  {
    match t
    case Nil => 0
    case Node(l, _, r) =>
      var hl, hr := Height(l), Height(r);
      1 + if hl < hr then hr else hl
  }

  // ---------------------------------------------------------------------
  // Properties of the operations

  /** In an ordered tree the search finds `key` exactly when it is stored. */
  lemma {:induction false} SearchFinds(t: Tree, key: int)
    requires IsBST(t)
    ensures SearchHelper(t, key).Node? <==> key in Elements(t)
  {
    match t
    case Nil =>
    case Node(l, k, r) =>
      if key < k {
        SearchFinds(l, key);
      } else if key > k {
        SearchFinds(r, key);
      }
  }

  /** Inserting a key that is already stored leaves an ordered tree as it was. */
  lemma {:induction false} InsertDuplicate(t: Tree, key: int)
    requires IsBST(t) && key in Elements(t)
    ensures InsertHelper(t, key) == t
  {
    match t
    case Nil =>
    case Node(l, k, r) =>
      if key < k {
        InsertDuplicate(l, key);
      } else if key > k {
        InsertDuplicate(r, key);
      }
  }

  /** Inserting a new key into an ordered tree adds exactly one node. */
  lemma {:induction false} InsertSize(t: Tree, key: int)
    requires IsBST(t)
    ensures Size(InsertHelper(t, key)) == Size(t) + (if key in Elements(t) then 0 else 1)
  {
    match t
    case Nil =>
    case Node(l, k, r) =>
      if key < k {
        InsertSize(l, key);
      } else if key > k {
        InsertSize(r, key);
      }
  }

  /** An insertion lengthens the longest path by at most one node. */
  lemma {:induction false} InsertHeight(t: Tree, key: int)
    ensures Height(t) <= Height(InsertHelper(t, key)) <= Height(t) + 1
  {
    match t
    case Nil =>
    case Node(l, k, r) =>
      if key < k {
        InsertHeight(l, key);
      } else if key > k {
        InsertHeight(r, key);
      }
  }

  /** A tree of `n` nodes is between 1 and `n` nodes tall when it is not empty. */
  lemma {:induction false} HeightBounds(t: Tree)
    ensures t != Nil ==> 1 <= Height(t) <= Size(t)
  {
    match t
    case Nil =>
    case Node(l, _, r) =>
      HeightBounds(l);
      HeightBounds(r);
  }

  /** The walk emits exactly the stored keys. */
  lemma {:induction false} TraverseElements(t: Tree)
    ensures forall x :: x in TraverseHelper(t) <==> x in Elements(t)
  {
    match t
    case Nil =>
    case Node(l, k, r) =>
      TraverseElements(l);
      TraverseElements(r);
  }

  /** The walk of an ordered tree emits its keys in strictly increasing order. */
  lemma {:induction false} TraverseSorted(t: Tree)
    requires IsBST(t)
    ensures StrictlySorted(TraverseHelper(t))
  {
    match t
    case Nil =>
    case Node(l, k, r) =>
      TraverseSorted(l);
      TraverseSorted(r);
      TraverseElements(l);
      TraverseElements(r);
      var a, b := TraverseHelper(l), TraverseHelper(r);
      var s := a + [k] + b;
      forall i, j | 0 <= i < j < |s| ensures s[i] < s[j] {
        if j < |a| {
          assert s[i] == a[i] && s[j] == a[j];
        } else if i > |a| {
          assert s[i] == b[i - |a| - 1] && s[j] == b[j - |a| - 1];
        } else {
          if i < |a| {
            assert s[i] == a[i] && s[i] in a;
          }
          if j > |a| {
            assert s[j] == b[j - |a| - 1] && s[j] in b;
          }
        }
      }
  }

  // ---------------------------------------------------------------------
  // The tree

  class BST {
    var root: Tree

    ghost predicate Valid()
      reads this
    {
      IsBST(root)
    }

    /** A new, empty tree. */
    constructor()
      ensures Valid() && root == Nil && Elements(root) == {} && Height(root) == 0
    {
      root := Nil;
    }

    /** The root: Nil exactly when the tree is empty, and an ordered tree. */
    function GetRoot(): (r: Tree)
      reads this
      requires Valid()
      ensures r == root && IsBST(r)
      ensures r == Nil <==> Elements(root) == {}
    {
      root
    }

    /** Adds `key` to the tree unless it is already there; the tree stays
        ordered and gets at most one level taller. */
    method Insert(key: int)
      requires Valid()
      modifies this
      ensures Valid() && root == InsertHelper(old(root), key)
      ensures Elements(root) == old(Elements(root)) + {key}
      ensures key in old(Elements(root)) ==> root == old(root)
      ensures old(Height(root)) <= Height(root) <= old(Height(root)) + 1
    {
      InsertHeight(root, key);
      if key in Elements(root) {
        InsertDuplicate(root, key);
      }
      root := InsertHelper(root, key);
    }

    /** Whether `key` is in the tree. */
    method Search(key: int) returns (b: bool)
      requires Valid()
      ensures b <==> key in Elements(root)
    {
      SearchFinds(root, key);
      b := SearchHelper(root, key) != Nil;
    }

    /** The keys of the tree in strictly increasing order. */
    method Traverse() returns (out: seq<int>)
      requires Valid()
      ensures out == TraverseHelper(root) && StrictlySorted(out)
      ensures forall x :: x in out <==> x in Elements(root)
    {
      TraverseSorted(root);
      TraverseElements(root);
      out := TraverseHelper(root);
    }
  }
}

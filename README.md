# B-tree and binary search tree, modelled in Dafny

The repository compares two in-memory search structures for integer keys:

- a B-tree of minimum degree `t`, with `src/b_tree.cpp` and `include/b_tree.h`;
- an unbalanced binary search tree, with `src/bst.cpp` and `include/bst.h`.

A benchmark feeds both trees sequential, random, reverse, duplicate-heavy and skewed key sequences and summarises the timings. Its generators and statistics are in `include/benchmark.h`; this model covers the sequential and the reverse generator and the `min` and `max` statistics.

This project models those parts:

| file | module | contents |
|---|---|---|
| `seqs.dfy` | `Seqs` | Sequence facts shared by the modules: sorted order, the sorted insertion a B-tree leaf performs, vector insertion at a position, reversal. |
| `btree_node.dfy` | `BTreeNode` | A B-tree node as a value `Node(keys, children, isLeaf)`, and the node operations: split a full child, insert into a node that is not full, search, in-order traversal, height. |
| `btree.dfy` | `BTree` | The class `BTree`, holding the optional root and the minimum degree: construct, insert, search, traverse, get the root. |
| `bst.dfy` | `Bst` | The BST as a datatype with its recursive helpers (insert, search, in-order walk, height), and the class `BST` holding the root. |
| `benchmark.dfy` | `Benchmark` | The ascending and descending generators, and the minimum and maximum of a series. |

The C++ mutates nodes through pointers. Here a node operation returns the rewritten node. The two tree classes are Dafny classes whose `Insert` reassigns the `root` field.

The invariants proved to be kept by every B-tree insertion are:

- the node shape: a leaf has no children; an internal node has one more child than keys;
- the in-order key sequence is non-decreasing (duplicates are allowed);
- all leaves are at the same depth;
- no node holds more than `2t - 1` keys;
- every non-root node holds at least `t - 1` keys.

The contents are tracked as a multiset: each insertion adds exactly one occurrence of the key.

The BST rejects duplicates. Its invariant is the strict search-tree order, and its contents are tracked as a set.

## Model

| member | source | states |
|---|---|---|
| Seqs.InsertAt | src/b_tree.cpp:102-105 | A vector insert at position `i`: the elements before `i` stay, the new element sits at `i`, and the rest move one place right. |
| Seqs.InsertSorted | src/b_tree.cpp:120-132 | The leaf's sorted insertion adds exactly one occurrence of the key (length +1, multiset + {key}). |
| Seqs.InsertSortedKeepsOrder | src/b_tree.cpp:120-132 | Inserting into a sorted key sequence leaves it sorted. |
| Seqs.InsertSortedIsInsertAt | src/b_tree.cpp:125-131 | The key lands right after the last key not greater than it, before all greater keys. |
| BTreeNode.InsertIntoLeaf | src/b_tree.cpp:120-132 | The push-back-and-shift loop produces exactly the sorted insertion of the key into the leaf's keys. |
| BTreeNode.Height | include/b_tree.h:65-73 | The height of a present node is at least 1. |
| BTreeNode.TreeHeight | include/b_tree.h:65-73 | The height is 0 exactly when there is no node. |
| BTreeNode.HeightIsLeafDepth | include/b_tree.h:68-72 | In a balanced subtree, following the first child measures the depth shared by every leaf. |
| BTreeNode.Walk | src/b_tree.cpp:30-43 | The loop that visits child i, then key i, then the last child emits exactly the in-order key sequence. |
| BTreeNode.TraverseAt | src/b_tree.cpp:34-42 | The in-order sequence is what precedes child i, then that child's sequence, then what follows it. |
| BTreeNode.AroundChild | src/b_tree.cpp:34-42 | In a sorted tree, the keys of child i lie between the parent's keys i-1 and i. |
| BTreeNode.NodeKeysSorted | include/b_tree.h:16 | The keys of a node of a sorted tree are themselves sorted. |
| BTreeNode.SplitHalves | src/b_tree.cpp:80-99 | A full node is its lower half, then its median key, then its upper half, in order; both halves are well shaped. |
| BTreeNode.SplitShaped | src/b_tree.cpp:96-105 | The node a split produces is well shaped; the two halves sit at `index` and `index + 1`, and the median sits at key `index`. |
| BTreeNode.SplitTraverse | src/b_tree.cpp:75-106 | A split leaves the parent's in-order key sequence unchanged. |
| BTreeNode.SplitKeepsBalance | src/b_tree.cpp:75-106 | A split keeps every leaf at the same depth and keeps the height. |
| BTreeNode.SplitKeepsKeyBounds | src/b_tree.cpp:75-106 | Splitting a full child of a non-full parent keeps every node within `2t - 1` keys and every non-root node at `t - 1` keys or more. |
| BTreeNode.SplitChild | src/b_tree.cpp:75-106 | The parent gains one key and one child. The median key is inserted at `index`, the lower half stays at `index`, and the new sibling with the upper `t - 1` keys and `t` children goes to `index + 1`. The in-order sequence, the balance and the key bounds are kept. |
| BTreeNode.ChildIndex | src/b_tree.cpp:137-140 | The scan stops one past the last key not greater than the key, before all greater keys. |
| BTreeNode.ChildIndexUnique | src/b_tree.cpp:137-140 | Only one index has that property. |
| BTreeNode.ChildDepth | src/b_tree.cpp:143-154 | The child descended into, and either half of a split full child, is shallower than the node, so the recursion ends. |
| BTreeNode.SplitDescent | src/b_tree.cpp:143-151 | After a split, comparing the key with the median picks a half whose neighbouring keys enclose the key and which is not full. |
| BTreeNode.SplitIfFull | src/b_tree.cpp:143-151 | A full child is split and the half is picked by `keys[i] < key`; otherwise nothing changes. Either way the chosen child is ready for the descent. |
| BTreeNode.InsertIntoChild | src/b_tree.cpp:153-154 | Replacing child i by the same child plus a key that lies between its neighbouring keys adds that key to the node and keeps it sorted. |
| BTreeNode.ReplaceChildBalance | src/b_tree.cpp:153-154 | Replacing a child by a balanced node of the same height keeps the node balanced at its height. |
| BTreeNode.ReplaceChildKeyBounds | src/b_tree.cpp:153-154 | Replacing a child by one with no fewer keys that is within bounds keeps the parent within bounds. |
| BTreeNode.LeafInsert | src/b_tree.cpp:120-132 | A leaf taking the key at its sorted place keeps every invariant and gains the key. |
| BTreeNode.DescendInsert | src/b_tree.cpp:143-154 | Putting the recursively grown child back completes the insertion into the node and keeps every invariant. |
| BTreeNode.InsertNonFull | src/b_tree.cpp:116-156 | The key is added exactly once; order, shape, balance, height and key bounds are kept. A leaf's keys become their sorted insertion. An internal node gains the median key exactly when the child for the key was full; otherwise its keys stay the same. |
| BTreeNode.SearchDescends | src/b_tree.cpp:49-65 | When the scan stops strictly between two keys, the key is in the node's subtree exactly when it is in that child's subtree. |
| BTreeNode.Search | src/b_tree.cpp:46-66 | A returned node holds the key. In a sorted tree, a node is returned exactly when the key is in the subtree. |
| BTreeNode.SizeDec | src/b_tree.cpp:127 | `i--` on a `size_t` is subtraction modulo 2^64, so decrementing 0 gives the largest `size_t`. |
| BTreeNode.ScanAsWritten | src/b_tree.cpp:118-139 | The unsigned scan as written either stops at a slot within the keys or reads out of range. |
| BTreeNode.ScanAsWrittenOverruns | src/b_tree.cpp:118-139 | The unsigned scan reads out of range exactly when every scanned key is greater than the new key; otherwise it agrees with the intended scan. |
| BTreeNode.ScanAsWrittenExample | src/b_tree.cpp:118-132 | Keys [5] receiving 1: the scan as written reads out of range, while the intended insertion gives [1, 5]. |
| BTree.NewRootOver | src/b_tree.cpp:167-173 | A new root over a full old root traverses as the old root does, is balanced one level higher, and keeps the root bounds. |
| BTree.RootNotEmpty | src/b_tree.cpp:160-164 | A root always holds at least one key, so the tree's sequence is not empty. |
| BTreeNode.MinSize | include/b_tree.h:65-73 | A node below the root whose leaves all lie `h` levels down holds at least `t^h - 1` keys, by the `t - 1` lower key bound at every level. |
| BTree.RootMinSize | include/b_tree.h:65-73 | A valid root whose height helper reports `h` heads a tree of at least `2 t^(h-1) - 1` keys. |
| BTree.HeightAtMost | include/b_tree.h:65-73 | A tree of fewer than `2 t^e - 1` keys is at most `e` levels high: the height is logarithmic, to base `t`, in the number of keys. |
| BTree.FlatAtDegreeHundred | include/b_tree.h:65-73 | With minimum degree 100, a tree of at most 1000 keys is at most two levels high. |
| BTree.BTree.constructor | include/b_tree.h:44-47 | A new tree has no root, so it is empty with height 0, and it records the minimum degree. |
| BTree.BTree.GetRoot | include/b_tree.h:56 | The root is absent exactly when the tree holds no key; a present root traverses to the tree's contents. |
| BTree.BTree.Search | src/b_tree.cpp:69-72 | Answers true exactly when the key is in the tree. |
| BTree.BTree.Traverse | src/b_tree.cpp:198-204 | Emits the tree's keys in order, sorted. |
| BTree.GrowRoot | src/b_tree.cpp:170-186 | Inserting under a full root yields a valid root one level higher that holds only the old root's median, has two children, and whose keys are the old keys plus the new one. |
| BTree.BTree.Insert | src/b_tree.cpp:158-192 | The multiset of keys gains the key, and the tree invariants are kept. An empty tree becomes a single leaf holding the key. A full root is replaced by a root holding only its median, with two children, and the height grows by one; otherwise the height stays. |
| Bst.Leaf | include/bst.h:14 | A new node holds just its key and is ordered. |
| Bst.InsertHelper | src/bst.cpp:24-40 | The result is a node with the same root key. Its keys are the old keys plus the new one, and an ordered tree stays ordered. |
| Bst.InsertDuplicate | src/bst.cpp:37 | Inserting a key already present changes nothing. |
| Bst.InsertSize | src/bst.cpp:27-36 | An insertion adds one node exactly when the key was absent. |
| Bst.InsertHeight | src/bst.cpp:24-40 | An insertion makes the tree at most one level taller, never shorter. |
| Bst.SearchHelper | src/bst.cpp:48-61 | A returned node holds the key, which is in the tree. |
| Bst.SearchFinds | src/bst.cpp:48-61 | In an ordered tree, the search finds a node exactly when the key is present. |
| Bst.Height | include/bst.h:44-52 | The height is 0 exactly for no node. |
| Bst.HeightBounds | include/bst.h:44-52 | A non-empty tree's height is between 1 and its number of nodes. |
| Bst.TraverseHelper | src/bst.cpp:70-77 | The in-order walk emits one key per node. |
| Bst.TraverseElements | src/bst.cpp:70-77 | The walk emits exactly the stored keys. |
| Bst.TraverseSorted | src/bst.cpp:70-77 | The walk of an ordered tree is strictly increasing. |
| Bst.BST.constructor | include/bst.h:31 | A new tree is empty, ordered and of height 0. |
| Bst.BST.GetRoot | include/bst.h:33 | The root is ordered and is Nil exactly when the tree is empty. |
| Bst.BST.Insert | src/bst.cpp:19-22 | The keys gain the new key, a duplicate leaves the tree unchanged, the order is kept, and the height grows by at most one. |
| Bst.BST.Search | src/bst.cpp:43-46 | Answers true exactly when the key is in the tree. |
| Bst.BST.Traverse | src/bst.cpp:64-68 | Emits the stored keys in strictly increasing order. |
| Benchmark.Ascending | include/benchmark.h:128-134 | The sequence has `max(count, 0)` elements, and element `k` is `k + 1`. |
| Benchmark.Sequential | include/benchmark.h:128-134 | The loop pushing 1 up to `count` produces that sequence. |
| Benchmark.Descending | include/benchmark.h:147-153 | The sequence has `max(count, 0)` elements, and element `k` is `count - k`. |
| Benchmark.Reverse | include/benchmark.h:147-153 | The loop pushing `count` down to 1 produces that sequence. |
| Benchmark.DescendingIsReversed | include/benchmark.h:128-153 | The descending input is the ascending input reversed. |
| Benchmark.MinOf | include/benchmark.h:103-106 | 0 for no data; otherwise an element that is at most every element. |
| Benchmark.Min | include/benchmark.h:103-106 | The scan for a smaller element computes that minimum. |
| Benchmark.MaxOf | include/benchmark.h:108-111 | 0 for no data; otherwise an element that is at least every element. |
| Benchmark.Max | include/benchmark.h:108-111 | The scan for a greater element computes that maximum. |
| Benchmark.MinLeMax | include/benchmark.h:103-111 | The minimum never exceeds the maximum. |

## Left out

- The B-tree node constructor (src/b_tree.cpp:5-14) records the minimum degree and the leaf flag and reserves vector capacity. Nodes are built directly as datatype values whose `isLeaf` field is the leaf flag; the degree is not stored in the node (next line), and capacity has no counterpart.
- Each node's own copy of the minimum degree (include/b_tree.h:19) is not stored. Every node operation takes the tree's degree `t` as a parameter.
- BTree.BTree.constructor, BTree.GrowRoot, SplitChild, InsertNonFull: require a minimum degree of at least 2. The C++ accepts any `int`, but with a degree below 2 a full node has at most one key and a split is meaningless.
- Destructors and `deleteTree` (src/b_tree.cpp:16-28, src/bst.cpp:5-16) free memory; the model has no heap nodes to free.
- `printTree` in both trees only formats output.
- Console output of both `traverse` methods is modelled as the returned key sequence.
- The benchmark's timing, `mean`, `stddev`, `median`, the random, duplicate-heavy and skewed generators, `src/main.cpp`, `src/csv_exporter.cpp` and the Python scripts are not part of this model. They involve clocks, randomness, floating point and files.
- Keys are unbounded integers. The C++ is a template, instantiated with `int` keys and `long long` timings. Comparisons are the only key operations, so no arithmetic on keys can overflow.
- Benchmark.Sequential: integers are unbounded, so the overflow of `i++` when `count` is `INT_MAX` is not modelled.
- BST pointer rewiring (`node->left = insertHelper(...)`) is modelled as returning the rebuilt subtree. Aliasing of nodes is not modelled; neither tree shares nodes.
- BTreeNode.Search: returns the node holding the key as a value rather than a pointer into the tree.

## Findings

| source | as written | input that shows it | evidently intended | confidence | as-written member | corrected member |
|---|---|---|---|---|---|---|
| src/b_tree.cpp:118-139 | `size_t i = keys.size() - 1` scanned by `while (i >= 0 && keys[i] > key) i--`. With an unsigned index, `i >= 0` always holds. When every key is greater than the new key, `i` wraps from 0 to `SIZE_MAX`, and `keys[SIZE_MAX]` is read out of range (undefined behaviour). | A leaf holding [5] receiving 1 (any insertion below a node's smallest key, e.g. the descending benchmark input). | A signed index, so the scan stops at -1 and the key goes in front: [1, 5]. | high; not executed | BTreeNode.ScanAsWrittenOverruns | BTreeNode.InsertNonFull |

# rbtree: a binary search tree with colour tags and parent links

This project models `rbtree.rs`. That file holds a generic binary search tree. Each node stores a key, a value, a red/black colour tag, two owned children and a non-owning link to its parent. It offers these operations:

- `create` and `create_with_color` build a single root node; `create` colours it black.
- `find` descends by three-way comparison and returns the stored value or nothing.
- `insert` attaches a new leaf where the descent runs out. An equal key does nothing, so a stored value is never overwritten. `make_child` gives the new node the colour opposite to its parent's and links it up to that parent.
- `height` counts a childless node as 1 and a missing child as 0.
- `grand` returns the parent of the parent.
- `sum` adds up every node's value.

The tree never rebalances. Its shape is that of a plain binary search tree built in insertion order. The colour is recorded but no rule about it is enforced.

The model has two modules:

- `TreeModel` (`tree_model.dfy`) treats a tree as a value, `Tree = Nil | Node(color, key, value, left, right)`. `Nil` stands for an absent child. It holds the source's operations as functions (`Find`, `Insert`, `Height`, `Sum`, `Max`, `Opposite`, `Create`, `CreateWithColor`, `MakeChild`) and the lemmas that state what they promise.
- `RBTrees` (`rbtree.dfy`) is the node structure itself, a class `RBTree`. The fields `color`, `key`, `value` and `parent` are `const`, because the source never reassigns them after a node is built; `left` and `right` are assigned by `Insert`. The ghost field `Model` is the subtree's value in `TreeModel`. `Valid()` ties `Model` to the fields and says that every child links back to its parent.
  - `Insert` updates the nodes in place. `Sum` keeps a mutable accumulator. Both are methods.
  - `Find`, `Height` and `Grand` are functions.
  - `Insert`, `Sum`, `Find` and `Height` are proved equal to their `TreeModel` counterparts; `Grand` is described by `GrandOnPath`.

Keys and values are `int`. Values are integers because `sum` adds them.

Colours alternate, a consequence of the colour rule. Every node that `insert` creates has the colour opposite to its parent's, and nodes never move. So in a tree built by `create` and inserts, every parent/child pair has opposite colours (`InsertAlternating` for one insert, `BuildAlternating` for any sequence). Hence no red node ever has a red child in such a tree. The property that is not enforced is equal black-height on every path.

The source's test `test_balanced` (rbtree.rs:154-160) expects height 2 after inserting 4, 6 and 5. The code has no rebalancing, so 5 goes to the left of 6 and the height is 3 (`ExampleNoRebalancing`). The model follows the code.

## Model

| member | source | states |
|---|---|---|
| `TreeModel.Opposite` | rbtree.rs:79 | a child's colour always differs from its parent's (red under black, black under red) |
| `RBTrees.RBTree.CreateWithColor` | rbtree.rs:22-31 | builds a valid one-node tree with the given key, value and colour, no children and no parent |
| `RBTrees.RBTree.Create` | rbtree.rs:18-20 | builds a valid one-node tree with key `k`, value `v`, colour black, no children and no parent |
| `RBTrees.RBTree.MakeChild` | rbtree.rs:77-86 | builds a childless node with colour opposite to the parent's, whose parent link is that parent |
| `TreeModel.CreateWithColor` | rbtree.rs:22-31 | a one-node tree of the given colour and height 1, holding exactly `(k, v)`, where `find(k)` gives `v`; it is ordered and alternating |
| `TreeModel.Create` | rbtree.rs:18-20 | the same one-node tree coloured black |
| `TreeModel.MakeChild` | rbtree.rs:77-86 | a childless node holding exactly `(k, v)`, whose colour differs from the parent's |
| `TreeModel.Find` | rbtree.rs:35-47 | the three-way descent: equal key gives the value, a greater node key goes left, otherwise right, falling off gives `None`; a found key is one of the tree's keys |
| `TreeModel.Insert` | rbtree.rs:49-62 | the descent that replaces the absent child where it runs out with `make_child`'s node and does nothing on an equal key; the node it is called on keeps its key, value and colour |
| `TreeModel.Height` | rbtree.rs:64-71 | 1 for a childless node, else 1 plus the larger child height, an absent child counting 0; at least 1 exactly for a node |
| `TreeModel.Sum` | rbtree.rs:93-100 | the node's value plus the sums of its present children; with non-negative values the sum is non-negative and at least every stored value |
| `TreeModel.Max` | rbtree.rs:89-91 | the result is at least both arguments and is one of them |
| `RBTrees.RBTree.Find` | rbtree.rs:35-47 | the descent over the nodes returns what the value-level `find` returns for the subtree, and changes nothing |
| `TreeModel.FindSound` | rbtree.rs:35-47 | on any tree, a value `find` returns for `k` is stored in a node with key `k` |
| `TreeModel.FindExact` | rbtree.rs:35-47 | on an ordered tree, `find(k) == Some(v)` exactly when a node holds `k` and `v`, and `None` exactly when `k` is not a key |
| `RBTrees.RBTree.Insert` | rbtree.rs:49-62 | updates the subtree in place. Afterwards it is valid, only fresh objects are added, and its model is the value-level insert of the old model |
| `TreeModel.InsertPresent` | rbtree.rs:49-62 | when `find` meets the key, insert leaves the tree exactly as it was, so the stored value is not overwritten |
| `TreeModel.FindAfterInsert` | rbtree.rs:49-62 | after insert, `find(k)` gives the new value if `k` was not found before; every other lookup gives what it gave before |
| `TreeModel.InsertContents` | rbtree.rs:49-62 | the key set grows by exactly `k`; `(k, v)` joins the entries exactly when `k` was not found, and otherwise the entries are unchanged |
| `TreeModel.InsertOrdered` | rbtree.rs:49-62 | insert keeps binary-search-tree order |
| `TreeModel.InsertShape` | rbtree.rs:49-62 | inserting an absent key adds exactly one node (the node count grows by one and one label is added); its colour is opposite to the node where the descent ran out, and it is linked as that node's child. Every other node keeps its key, value, colour and links |
| `TreeModel.InsertAlternating` | rbtree.rs:77-86 | if every child's colour is opposite to its parent's, it stays so after insert |
| `TreeModel.InsertHeight` | rbtree.rs:64-71 | one insert never lowers the height and raises it by at most 1 |
| `RBTrees.RBTree.Height` | rbtree.rs:64-71 | the height over the nodes is at least 1 and equals the value-level height |
| `TreeModel.HeightIsLongestPath` | rbtree.rs:64-71 | the height is the number of nodes on a longest path down from the root |
| `RBTrees.RBTree.Grand` | rbtree.rs:73-75 | returns the parent's parent, or null when either link is absent |
| `RBTrees.RBTree.ParentOnPath` | rbtree.rs:84 | every node below the root links up to the node one step shorter on its path |
| `RBTrees.RBTree.GrandOnPath` | rbtree.rs:73-75 | in a tree with a root, `grand` at depth 0 or 1 is null; deeper, it is the node two steps up the path |
| `RBTrees.RBTree.Sum` | rbtree.rs:93-100 | the accumulated total equals the value-level sum of the subtree |
| `TreeModel.InsertSum` | rbtree.rs:93-100 | an insert adds `v` to the sum exactly when it adds a node, so each stored value is counted once |
| `TreeModel.FindAfterBuild` | rbtree.rs:126-134 | after a sequence of inserts, `find(k)` gives what it gave before. A key not found before gets the value of its first insert; later inserts never overwrite it |
| `TreeModel.BuildOrdered` | rbtree.rs:49-62 | a sequence of inserts keeps binary-search-tree order |
| `TreeModel.BuildAlternating` | rbtree.rs:77-86 | every tree built by `create` and any sequence of inserts has every child coloured opposite to its parent |
| `TreeModel.SumAfterBuild` | rbtree.rs:93-100 | after a sequence of inserts into an ordered tree, the sum is the old sum plus the value of the first insert of each new key, each counted once |
| `TreeModel.ExampleInsertRight` | rbtree.rs:109-123 | inserting 6 under root 5 puts a red node at `right` and leaves `left` empty |
| `TreeModel.ExampleFindSumHeight` | rbtree.rs:137-151 | keys 5, 4, 6 with values 5, 4, 6: `find(6)` gives 6, the sum is 15 and the height 2 |
| `RBTrees.ExampleInsert` | rbtree.rs:109-123 | on the nodes: after `create(5, ..)` and `insert(6, ..)`, `right` holds 6, is red and links up to the root, `left` stays empty, and the new node has no grandparent |
| `TreeModel.ExampleNoRebalancing` | rbtree.rs:154-160 | keys 4, 6, 5 give height 3, because there is no rebalancing |

## Left out

- Generic keys and values: keys are `int` and values are `int`. The trait bounds `Ord`, `Eq`, `Copy` and `Add` are the integer operations.
- Lifetimes and ownership: the borrow, owned-box and managed-box machinery is memory management. Child ownership is the `Repr` footprint, with disjoint footprints for the two children. The parent link is a plain reference that is never reassigned.
- `Option` combinators: `chain_ref`, `map_default` and `map` are inlined as conditionals on an absent child.
- `find` returns the value instead of a reference to it.
- RBTrees.RBTree.Sum: values are unbounded integers, so the overflow a fixed-width value type could hit is not modelled.
- RBTrees.RBTree.Height: the result is unbounded, so the overflow of `uint` is not modelled; it would need more nodes than memory holds.
- Red-black balancing (rotations, recolouring, uniform black-height): the source has none.
- Deletion: the source has none.
- A variant of the tree without parent links: it is not part of `rbtree.rs`.

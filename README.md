# A verified model of an unfinished in-memory B-tree

This project models, in Dafny, the in-memory B-tree of `src/main.rs` and the alternative
bottom-up ("reactive") insert sketched in `src/scraps/reactive_insert.rs`. The model
follows the draft as written, defects included. Where the draft would panic, the model
returns a panic value.

- `btree.dfy`, module `BTrees`: the rules derived from the degree (`BTreeRules::new`),
  items, nodes (`Node::new`, `search`, `insert`, `insertable_leaf`, `splittable_child`,
  `insert_item`, `split`) and the tree (`BTree::new`, `find`, `root_split`, `insert`).
- `reactive_insert.dfy`, module `ReactiveInsert`: `insert_reactive`.

How the model is built:

- Keys and values are `int`: `Item(key, value)`.
- A node is the value `Node(items, children, numItems, numChildren, rules)`.
- Children are exclusively owned boxes with no sharing, so a value datatype describes
  them exactly.
- Each `&mut self` method is a member method. It takes the old value and returns the new
  value together with the draft's own result.
- The counters `numItems` and `numChildren` are separate `int` fields. The draft updates
  them apart from the vectors, so they can disagree with the lengths.
- Every `Vec` index the draft can get out of range is checked. The method then returns
  `Panic(ChildIndexOutOfRange)` or `Panic(ItemIndexOutOfRange)` instead of a result, and
  its contract says when that happens.

Each operation is checked against the classic B-tree invariants, stated as predicates:

- `Ordered`: sorted items and separator order, with one more child than items.
- `Tallied`: the counters agree with the lengths.
- `Occupancy`: every node holds at most `maxKeys` items; every non-root node at least
  `minKeys`.
- `Balanced`: all leaves lie at the same depth.

Each operation is also checked against what the tree holds: `Holds`, `HasKey`, `Upserts`.

Behaviour of the draft that the model keeps and proves:

- `split` starts the fresh node's `num_items` at 0 and then subtracts the length of the
  upper half (src/main.rs:104, 217). For any non-empty node that `usize` subtraction
  underflows; the model lets its `int` counter go negative.
- `split` keeps the median in the new node (`items[median..]`) and never partitions
  `children`.
- It builds the new node with `NODE_DEGREE` rather than the node's own rules.
- After a split the cut-down node holds exactly `median` items. Each of these reads is
  therefore one past the end and always panics:
  - `children[position].items[median]` (src/main.rs:162);
  - `root.items[median]` (src/main.rs:62);
  - `children[position].items[median_idx_of_split]` (src/scraps/reactive_insert.rs:36).
- The consequences:
  - the proactive split case of `Node::insert` always panics;
  - `root_split` always panics;
  - a reactive split is handed up (src/scraps/reactive_insert.rs:22) and received by the
    parent (line 34), but the parent never adopts it: it panics at line 36.
- `Node::insert` on a full leaf falls through to `splittable_child`, which indexes an
  empty `children` and panics. A tree therefore never grows past its root leaf:
  `BTree.Insert` keeps the height, and a full leaf root panics on any new key.
- `find` indexes `children[position]` even when the root is a leaf, so it panics on a
  one-node tree whenever the key is not in the root. It never searches a leaf below the
  root: in an ordered tree a key it holds is missed exactly when it sits in such a leaf
  (`BTree.Find`, `LastVisitedHolds`; a concrete case in `FindSkipsLeaves`).
- `BTree::insert` checks the root's size after the insert, not before, and compares
  `maxchildren <= num_items`. A textbook B-tree splits a full root before descending; the
  model follows the draft.

## Model

| member | source | states |
|---|---|---|
| `BTrees.NewRules` | src/main.rs:13-26 | for a degree t >= 1: `minChildren = t`, `maxChildren = maxKeys + 1`, `minChildren = minKeys + 1`, `maxKeys = 2*minKeys + 1`; for t >= 2, `maxKeys >= 3` and `minKeys >= 1` |
| `BTrees.Node.New` | src/main.rs:98-108 | an empty leaf with the degree's rules, which satisfies all four invariants |
| `BTrees.BinarySearchRange` | src/main.rs:115-129 | the binary search over `[low, high)` returns an index in `[low, high]`; when found, the index is below `high` and holds the key |
| `BTrees.BinarySearch` | src/main.rs:110-130 | the search over all items returns an index in `[0, len]`; when found, the item there has the key |
| `BTrees.BinarySearchRangeSorted` | src/main.rs:117-129 | on strictly sorted items with smaller keys below `low` and greater ones from `high` on, a failed search splits the items at its index into smaller and greater keys |
| `BTrees.BinarySearchSorted` | src/main.rs:110-130 | on strictly sorted items: found holds exactly when some item has the key; every item before the index has a smaller key; every item after it a greater one; when not found, the items from the index on are greater |
| `BTrees.Node.Search` | src/main.rs:110-130 | the `while low < high` loop terminates and returns exactly `BinarySearch`: an index in `[0, len]`, and `items[index].key == key` when found |
| `BTrees.InsertAt` | src/main.rs:206 | `Vec::insert`: the element lands at index i, earlier entries stay, later ones shift right by one, and the multiset gains exactly that element |
| `BTrees.InsertAtSearchPosition` | src/main.rs:151-153 | inserting at the index of a failed search keeps strictly sorted items sorted, and searching again finds the key at that index |
| `BTrees.Node.InsertItem` | src/main.rs:205-209 | the item is inserted at the position, `numItems` goes up by exactly 1, nothing else changes, and it returns true |
| `BTrees.Node.Split` | src/main.rs:210-222 | `median = len/2`; the two halves concatenate to the old items and the old node keeps exactly `median` of them; children, rules and `numChildren` are unchanged; the new node has no children, `NODE_DEGREE` rules and counter `-len(upper half)`, negative for any non-empty node; sorted items give sorted halves |
| `BTrees.Node.InsertableLeaf` | src/main.rs:202-204 | reads the counters: in a tallied node it holds exactly when the node has no children and fewer than `maxKeys` items |
| `BTrees.Node.SplittableChild` | src/main.rs:198-201 | reads the child's counter and the length of `children`: for a tallied child it holds exactly when the child has `maxKeys` items and the node fewer than `maxChildren` children |
| `BTrees.Grown` | src/main.rs:151-153 | the node after its item went in at the search position: same children, rules and `numChildren`, `numItems` +1, one more item, the multiset gains exactly the item; sorted items stay sorted and a new search finds the key at that index |
| `BTrees.Node.Insert` | src/main.rs:131-204 | the key is found: `items[position]` is overwritten, nothing else changes, returns false. Insertable leaf: the item goes in at the search position, `numItems` +1, returns true. A full leaf or an out-of-range child panics at `splittable_child`. The split case always panics. Descent changes only `children[position]`. It panics exactly when `InsertPanics` holds and succeeds otherwise. On success it upserts the item and keeps order, counters, occupancy, height and balance; the flag is false only for a present key, and in an ordered, tallied tree true exactly when the key was absent. An overwrite (flag false), here or below, keeps the node's shape and every counter (`SameShape`). A fresh key (flag true) changes only the nodes on the search path, each keeping everything but its searched child, and the insertable leaf at the end becomes exactly `Grown` (`GrowsAlong`) |
| `BTrees.InsertDescendsIntoLeaf` | src/main.rs:131-196 | in the two-level tree of `FindSkipsLeaves` a new key 5 takes no panic path, since it descends into a leaf with room; a new key in a full leaf root does take one |
| `BTrees.OverwriteKeeps` | src/main.rs:145-149 | overwriting the found entry stores the item, leaves every other key's items alone, and keeps all invariants; the key was present |
| `BTrees.LeafInsertKeeps` | src/main.rs:150-153 | inserting into a leaf at the search position stores the item, leaves every other key alone, and keeps order, counters, height and balance; it keeps occupancy when `numItems < maxKeys`; in an ordered tree the key was absent |
| `BTrees.DescendKeeps` | src/main.rs:194-196 | when the searched child is upserted and keeps its invariants, so does the parent whose child slot is replaced |
| `BTrees.DescendInsert` | src/main.rs:194-196 | the descent case as a whole: upsert, invariants, occupancy, the flag's meaning, the shape after an overwrite and the path-only change after a fresh insert all pass from the child to the parent |
| `BTrees.DescendReports` | src/main.rs:194-196 | the flag the child returns keeps its meaning for the parent: in an ordered tree the key is in the parent exactly when it is in the searched child |
| `BTrees.DescendOccupancy` | src/main.rs:194-196 | when the child's update keeps occupancy and does not shrink it, the parent keeps occupancy |
| `BTrees.OrderedUnique` | src/main.rs:131-153 | in an ordered tree two items with the same key are the same item, which is what overwriting on a found key maintains |
| `BTrees.LastVisited` | src/main.rs:45-57 | the node `find` stops at is the root or has a nonzero `numChildren`, so never a leaf below the root. The loop's exit condition holds there: the key is found, the index is past `children`, or the child it points to has no positive `numChildren`. It holds only items of the tree |
| `BTrees.LastVisitedHolds` | src/main.rs:45-57 | in an ordered tree, for an item the tree holds, the node `find` stops at either has it as the entry the search finds, or holds it in the child the search points to, which has no positive `numChildren` |
| `BTrees.BTree.New` | src/main.rs:39-43 | a tree whose root is an empty leaf: valid and of height 0 |
| `BTrees.BTree.Find` | src/main.rs:45-57 | the loop returns the search result of `LastVisited`, or panics when the guard indexes `children` out of range; a found key is in the tree; a leaf root that lacks the key always panics. In an ordered tree a key it holds never panics, and a miss means the key sits in the leaf `children[index]` of the last node visited |
| `BTrees.BTree.RootSplit` | src/main.rs:58-66 | always panics at the `root.items[median]` read, because the split root holds exactly `median` items |
| `BTrees.BTree.Insert` | src/main.rs:67-75 | a key in the root is overwritten and the insert succeeds. An insertable leaf root takes the item and succeeds, unless it then reaches `maxChildren` items, when `root_split` panics. It panics whenever `Node::insert` does. It succeeds whenever `Node::insert` does and the root stays below `maxChildren` items. On success the item is upserted and all invariants are kept, the item is the only one with its key, and the height never changes. In a valid tree, overwriting a key it holds keeps the shape and every counter, and a fresh key changes only the search path, ending in a `Grown` leaf. Below an internal root with fewer than `maxChildren` items it succeeds whenever `Node::insert` does, since a descent leaves the root's `numItems` unchanged. A tallied leaf root with at least `maxKeys` items panics on any new key |
| `BTrees.FindSkipsLeaves` | src/main.rs:48-54 | in a valid two-level tree holding key 3 in its left leaf, `find` stops at the root and reports `(0, false)` |
| `ReactiveInsert.IsLeaf` | src/scraps/reactive_insert.rs:13 | `leaf()` reads the counter: in a tallied node it holds exactly when `children` is empty |
| `ReactiveInsert.FoundOnPathHasKey` | src/scraps/reactive_insert.rs:3-31 | in an ordered, tallied tree the descent meets the key exactly when the tree holds it |
| `ReactiveInsert.InsertReactive` | src/scraps/reactive_insert.rs:1-47 | a found key is overwritten and nothing is handed up. A leaf takes the item at the search position with `numItems` +1, and hands up `(median, new node)` exactly when `full` holds afterwards. The two halves then hold the grown leaf's items in order. An internal node changes only the searched child and always hands up nothing: an out-of-range child panics, and a split handed up by a child panics at the median read. It panics exactly when `ReactivePanics` holds: an out-of-range child, a child that panics, or a leaf child that splits. In every other case it succeeds. When the descent meets the key, a success hands nothing up and keeps the shape and every counter. Otherwise a success that hands nothing up changes only the path and ends in a `Grown` leaf (`ReactiveGrows`). Without a split the item is upserted and the invariants are kept |

## Left out

- Deletion: `fn delete() {}` is an empty stub (src/main.rs:223). The rebalancing plan
  (src/main.rs:318-351) is prose only, so there is no code to model.
- src/scraps/change-direction.rs holds comments only and is not part of this model.
- Everything after the reads that always panic is unreachable, so the model stops at
  the panic. This covers three pieces of code:
  - the direction correction against the promoted item (src/main.rs:181-192);
  - building the new root, which is also never assigned to the tree (src/main.rs:63-65);
  - the parent adopting a child's split and bumping `num_children`
    (src/scraps/reactive_insert.rs:38-43).
- The `find_key_simple` test (src/main.rs:232-243) expects a result the code cannot
  produce: `BTree.Find` proves that an empty tree panics. The commented-out tests
  (src/main.rs:245-316) target an older struct layout.
- `println!` tracing (src/main.rs:59, 73), `fn main`, the `Vec::with_capacity` hints, the
  derived trait impls and the generic key and value types are not modelled. Keys and
  values are `int`.
- Panics are modelled as results. Unwinding and the partly updated state a panic leaves
  behind are not.
- BTrees.NewRules: `usize` overflow of `2 * degree` for huge degrees is not modelled
  (integers are unbounded). A degree of 0, which underflows, is excluded by the
  precondition.
- BTrees.Node.Split: the counters are unbounded `int`s. The `usize` subtraction at
  src/main.rs:217 would panic in a debug build, or wrap in a release build, once it goes
  below zero. The model lets the counter go negative instead.
- BTrees.Node.InsertItem: the `num_items += 1` overflow of `usize` (src/main.rs:207) is not
  modelled; the counter is an unbounded `int`.
- ReactiveInsert.InsertReactive: the same holds for `num_items += 1` at
  src/scraps/reactive_insert.rs:15.
- ReactiveInsert.InsertReactive: `full_reactive` is not defined in the sketch, so it is a
  parameter `full`. The contract therefore does not promise occupancy: the leaf capacity
  is whatever `full` says.

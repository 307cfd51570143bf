/** A model of the in-memory B-tree draft in src/main.rs.

    Every `&mut self` method of the draft becomes a member method of a value datatype that
    returns the updated value together with the draft's own result. The draft's run-time
    panics (a `Vec` indexed out of range) are results of the form `Panic(fault)`, so each
    contract can say exactly when the draft panics. */
module BTrees {

  datatype Option<T> = None | Some(value: T)

  /** The panics the draft can reach; each is a `Vec` index that is out of range. */
  datatype Fault =
    | ChildIndexOutOfRange  // `children[position]` with `position >= children.len()`
    | ItemIndexOutOfRange   // `items[median]` on a node that a split has just cut to `median` items

  /** What a call that may panic produces: its ordinary result, or the panic. */
  datatype Outcome<T> = Ok(value: T) | Panic(fault: Fault)

  /** The degree the draft hard-codes for nodes built by `split` and `root_split`. */
  const NodeDegree: int := 2

  // ---------------------------------------------------------------- rules

  datatype Rules = Rules(maxKeys: int, maxChildren: int, minKeys: int, minChildren: int)

  /** `BTreeRules::new`. The draft computes in `usize`, so a degree of 0 underflows. */
  function NewRules(degree: int): (r: Rules)
    requires degree >= 1
    ensures r.minChildren == degree
    ensures r.maxChildren == r.maxKeys + 1 && r.minChildren == r.minKeys + 1
    ensures r.maxKeys == 2 * r.minKeys + 1
    ensures degree >= 2 ==> r.maxKeys >= 3 && r.minKeys >= 1
  {
    Rules(2 * degree - 1, 2 * degree, degree - 1, degree)
  }

  // ---------------------------------------------------------------- items and search

  datatype Item = Item(key: int, value: int)

  predicate StrictlySorted(items: seq<Item>) {
    forall i, j :: 0 <= i < j < |items| ==> items[i].key < items[j].key
  }

  /** `Vec::insert`: `x` lands at index `i` and the entries from `i` on shift right by one. */
  function InsertAt<T>(s: seq<T>, i: int, x: T): (r: seq<T>)
    requires 0 <= i <= |s|
    ensures |r| == |s| + 1 && r[i] == x
    ensures forall j :: 0 <= j < i ==> r[j] == s[j]
    ensures forall j :: i < j < |r| ==> r[j] == s[j - 1]
    ensures multiset(r) == multiset(s) + multiset{x}
  {
    assert s == s[..i] + s[i..];
    s[..i] + [x] + s[i..]
  }

  /** The pair `(index, found)` that `Node::search` returns. */
  datatype Probe = Probe(index: int, found: bool)

  /** The binary search of `Node::search`, restricted to the window `[low, high)`. */
  function BinarySearchRange(items: seq<Item>, key: int, low: int, high: int): (p: Probe)
    requires 0 <= low <= high <= |items|
    ensures low <= p.index <= high
    ensures p.found ==> p.index < high && items[p.index].key == key
    decreases high - low
  {
    if low >= high then Probe(low, false)
    else
      var median := (low + high) / 2;
      if key < items[median].key then BinarySearchRange(items, key, low, median)
      else if key == items[median].key then Probe(median, true)
      else BinarySearchRange(items, key, median + 1, high)
  }

  /** What `Node::search` returns for a node holding `items`. */
  function BinarySearch(items: seq<Item>, key: int): (p: Probe)
    ensures 0 <= p.index <= |items|
    ensures p.found ==> p.index < |items| && items[p.index].key == key
  {
    BinarySearchRange(items, key, 0, |items|)
  }

  lemma {:induction false} BinarySearchRangeSorted(items: seq<Item>, key: int, low: int, high: int)
    requires StrictlySorted(items) && 0 <= low <= high <= |items|
    requires forall j :: 0 <= j < low ==> items[j].key < key
    requires forall j :: high <= j < |items| ==> key < items[j].key
    ensures var p := BinarySearchRange(items, key, low, high);
      !p.found ==>
        (forall j :: 0 <= j < p.index ==> items[j].key < key) &&
        (forall j :: p.index <= j < |items| ==> key < items[j].key)
    decreases high - low
  {
    if low < high {
      var median := (low + high) / 2;
      if key < items[median].key {
        BinarySearchRangeSorted(items, key, low, median);
      } else if key > items[median].key {
        BinarySearchRangeSorted(items, key, median + 1, high);
      }
    }
  }

  /** On strictly sorted items the search finds the key exactly when it is there, and the
      index it returns splits the items into smaller and greater keys. */
  lemma BinarySearchSorted(items: seq<Item>, key: int)
    requires StrictlySorted(items)
    ensures var p := BinarySearch(items, key);
      && (p.found <==> exists j :: 0 <= j < |items| && items[j].key == key)
      && (forall j :: 0 <= j < p.index ==> items[j].key < key)
      && (forall j :: p.index < j < |items| ==> key < items[j].key)
      && (!p.found ==> forall j :: p.index <= j < |items| ==> key < items[j].key)
  {
    BinarySearchRangeSorted(items, key, 0, |items|);
  }

  /** Inserting at the position a failed search returns keeps the items strictly sorted,
      and a new search then finds the key at that position. */
  lemma InsertAtSearchPosition(items: seq<Item>, item: Item)
    requires StrictlySorted(items)
    requires !BinarySearch(items, item.key).found
    ensures var i := BinarySearch(items, item.key).index;
      && StrictlySorted(InsertAt(items, i, item))
      && BinarySearch(InsertAt(items, i, item), item.key) == Probe(i, true)
  {
    var i := BinarySearch(items, item.key).index;
    BinarySearchSorted(items, item.key);
    var grown := InsertAt(items, i, item);
    forall a, b | 0 <= a < b < |grown| ensures grown[a].key < grown[b].key {
      if b < i {
      } else if b == i {
      } else if a < i {
        assert grown[b] == items[b - 1];
      } else if a == i {
        assert grown[b] == items[b - 1];
      } else {
        assert grown[a] == items[a - 1] && grown[b] == items[b - 1];
      }
    }
    BinarySearchSorted(grown, item.key);
    var q := BinarySearch(grown, item.key);
    assert grown[i].key == item.key;
    assert q.found;
  }

  // ---------------------------------------------------------------- nodes

  /** A node right after its item went in at the search position and `numItems` was bumped:
      what `insert_item` leaves in case 2 of `Node::insert`, and the leaf of the reactive
      sketch before its fullness test. */
  function Grown(n: Node, item: Item): (g: Node)
    requires !BinarySearch(n.items, item.key).found
    ensures g.children == n.children && g.rules == n.rules && g.numChildren == n.numChildren
    ensures g.numItems == n.numItems + 1 && |g.items| == |n.items| + 1
    ensures multiset(g.items) == multiset(n.items) + multiset{item}
    ensures StrictlySorted(n.items) ==>
      && StrictlySorted(g.items)
      && BinarySearch(g.items, item.key) == Probe(BinarySearch(n.items, item.key).index, true)
  {
    var g := n.(items := InsertAt(n.items, BinarySearch(n.items, item.key).index, item), numItems := n.numItems + 1);
    if StrictlySorted(n.items) then
      InsertAtSearchPosition(n.items, item);
      g
    else
      g
  }

  /** What `Node::insert` produces: the updated node and the returned flag, which is true
      when the item was added and false when an existing key was overwritten. */
  datatype Insertion = Insertion(node: Node, inserted: bool)

  /** `Node`. The counters `numItems` and `numChildren` are fields of their own: the draft
      updates them separately from the vectors, and they can disagree with the lengths. */
  datatype Node = Node(items: seq<Item>, children: seq<Node>, numItems: int, numChildren: int, rules: Rules)
  {
    /** `Node::new`: an empty leaf whose counters agree with its (empty) vectors. */
    static function New(degree: int): (n: Node)
      requires degree >= 1
      ensures n.rules == NewRules(degree)
      ensures n.items == [] && n.children == []
      ensures Tallied(n) && Occupancy(n) && Balanced(n) && Ordered(n, None, None)
    {
      Node([], [], 0, 0, NewRules(degree))
    }

    /** `Node::search`: the loop of the draft, proved to compute `BinarySearch`. */
    method Search(item: Item) returns (index: int, found: bool)
      ensures Probe(index, found) == BinarySearch(items, item.key)
      ensures 0 <= index <= |items|
      ensures found ==> index < |items| && items[index].key == item.key
    {
      var low, high := 0, |items|;
      while low < high
        invariant 0 <= low <= high <= |items|
        invariant BinarySearchRange(items, item.key, low, high) == BinarySearch(items, item.key)
      {
        var median := (low + high) / 2;
        if item.key < items[median].key {
          high := median;
        } else if item.key == items[median].key {
          return median, true;
        } else {
          low := median + 1;
        }
      }
      return low, false;
    }

    /** `insertable_leaf`: reads the counters, not the vectors. */
    predicate InsertableLeaf(): (b: bool)
      ensures Tallied(this) ==> (b <==> children == [] && |items| < rules.maxKeys)
    {
      numChildren == 0 && numItems < rules.maxKeys
    }

    /** `splittable_child`: reads the child's counter and the length of `children`; indexing
        `children[position]` panics unless `position` is in range. */
    predicate SplittableChild(position: int): (b: bool)
      requires 0 <= position < |children|
      ensures Tallied(children[position]) ==>
        (b <==> |children[position].items| == rules.maxKeys && |children| < rules.maxChildren)
    {
      children[position].numItems == rules.maxKeys && |children| < rules.maxChildren
    }

    /** `insert_item`: `Vec::insert` at `position` and a bump of `numItems`; always true. */
    method InsertItem(position: int, item: Item) returns (node: Node, inserted: bool)
      requires 0 <= position <= |items|
      ensures node == this.(items := InsertAt(items, position, item), numItems := numItems + 1)
      ensures multiset(node.items) == multiset(items) + multiset{item}
      ensures inserted
    {
      node := this.(items := InsertAt(items, position, item));
      node := node.(numItems := node.numItems + 1);
      inserted := true;
    }

    /** `split`: the median index, this node cut down to the lower half, and a fresh node
        holding the upper half, median included. The fresh node is built with `NodeDegree`
        rather than this node's rules, its counter starts at 0 and is decreased by the
        length of the upper half, and `children` is not partitioned at all. */
    method Split() returns (median: int, node: Node, sibling: Node)
      ensures median == |items| / 2
      ensures node.items + sibling.items == items && |node.items| == median
      ensures node == this.(items := node.items, numItems := numItems - |sibling.items|)
      ensures sibling == Node(sibling.items, [], -|sibling.items|, 0, NewRules(NodeDegree))
      ensures |items| > 0 ==> sibling.numItems < 0
      ensures StrictlySorted(items) ==>
        && StrictlySorted(node.items) && StrictlySorted(sibling.items)
        && forall a, b :: 0 <= a < |node.items| && 0 <= b < |sibling.items| ==>
             node.items[a].key < sibling.items[b].key
    {
      var newNode := New(NodeDegree);
      median := |items| / 2;
      newNode := newNode.(items := items[median..]);
      newNode := newNode.(numItems := newNode.numItems - |newNode.items|);
      node := this.(items := items[..median]);
      node := node.(numItems := node.numItems - |newNode.items|);
      sibling := newNode;
      assert items == items[..median] + items[median..];
      assert forall a :: 0 <= a < |sibling.items| ==> sibling.items[a] == items[median + a];
    }

    /** `Node::insert`: the proactive top-down insert with its three cases. */
    method Insert(item: Item) returns (r: Outcome<Insertion>)
      decreases this
      // case 1: the key is in this node; that item is overwritten and nothing else changes
      ensures var p := BinarySearch(items, item.key);
        p.found ==> r == Ok(Insertion(this.(items := items[p.index := item]), false))
      // case 2: an insertable leaf takes the item at the search position
      ensures var p := BinarySearch(items, item.key);
        !p.found && InsertableLeaf() ==> r == Ok(Insertion(Grown(this, item), true))
      // `splittable_child` indexes `children` out of range, e.g. on a full leaf
      ensures var p := BinarySearch(items, item.key);
        !p.found && !InsertableLeaf() && p.index >= |children| ==> r == Panic(ChildIndexOutOfRange)
      // case 3: a proactive split always ends in the out-of-range median read
      ensures var p := BinarySearch(items, item.key);
        !p.found && !InsertableLeaf() && p.index < |children| && SplittableChild(p.index) ==>
          r == Panic(ItemIndexOutOfRange)
      // descent: only the child at the search position changes
      ensures var p := BinarySearch(items, item.key);
        !p.found && !InsertableLeaf() && p.index < |children| && !SplittableChild(p.index) && r.Ok? ==>
          && |r.value.node.children| == |children|
          && r.value.node == this.(children := children[p.index := r.value.node.children[p.index]])
      // it panics exactly on the paths `InsertPanics` describes, and succeeds on all others
      ensures r.Panic? <==> InsertPanics(this, item.key)
      ensures r.Ok? ==> Upserts(this, r.value.node, item) && KeepsInvariants(this, r.value.node, item.key)
      ensures r.Ok? ==> KeepsOccupancy(this, r.value.node) && ReportsFresh(this, item.key, r.value.inserted)
      // an overwrite, here or below, keeps the shape and every counter: only a value changes
      ensures r.Ok? && !r.value.inserted ==> SameShape(this, r.value.node)
      // a fresh key changes only the search path, and the leaf at its end becomes `Grown`
      ensures r.Ok? && r.value.inserted ==> GrowsAlong(this, r.value.node, item)
    {
      var position, found := Search(item);
      if found {
        OverwriteKeeps(this, item);
        SameShapeRefl(this);
        return Ok(Insertion(this.(items := items[position := item]), false));
      }
      if InsertableLeaf() {
        LeafInsertKeeps(this, item);
        var node, inserted := InsertItem(position, item);
        return Ok(Insertion(node, inserted));
      }
      if position >= |children| {
        return Panic(ChildIndexOutOfRange);
      }
      if SplittableChild(position) {
        var median, shrunk, sibling := children[position].Split();
        var node := this.(children := InsertAt(children[position := shrunk], position + 1, sibling));
        node := node.(numChildren := node.numChildren + 1);
        // the promoted item is read as `children[position].items[median]`
        if median < |node.children[position].items| {
          assert false;
        }
        return Panic(ItemIndexOutOfRange);
      }
      var rc := children[position].Insert(item);
      if rc.Panic? {
        return Panic(rc.fault);
      }
      DescendInsert(this, item, rc.value.node, rc.value.inserted);
      return Ok(Insertion(this.(children := children[position := rc.value.node]), rc.value.inserted));
    }
  }

  /** The paths on which `Node::insert` panics: the key is not in the node, the node is not
      an insertable leaf, and `splittable_child` indexes out of range, the split case is
      taken, or the insert into the searched child panics. */
  predicate InsertPanics(n: Node, key: int)
    decreases n
  {
    var p := BinarySearch(n.items, key);
    && !p.found && !n.InsertableLeaf()
    && (p.index >= |n.children| || n.SplittableChild(p.index) || InsertPanics(n.children[p.index], key))
  }

  /** `b` is `a` after a fresh item went in along the search path: every node on the path
      keeps everything but the searched child, and the insertable leaf at its end is `Grown`. */
  ghost predicate GrowsAlong(a: Node, b: Node, item: Item)
    decreases a
  {
    var p := BinarySearch(a.items, item.key);
    && !p.found
    && if a.InsertableLeaf() then b == Grown(a, item)
       else
         && p.index < |a.children| && |b.children| == |a.children|
         && b == a.(children := a.children[p.index := b.children[p.index]])
         && GrowsAlong(a.children[p.index], b.children[p.index], item)
  }

  // ---------------------------------------------------------------- what the tree holds

  /** Item `x` is stored in `n` or in one of its descendants. */
  ghost predicate Holds(n: Node, x: Item)
    decreases n
  {
    x in n.items || exists i :: 0 <= i < |n.children| && Holds(n.children[i], x)
  }

  ghost predicate HasKey(n: Node, key: int) {
    exists x :: Holds(n, x) && x.key == key
  }

  ghost predicate Above(lo: Option<int>, key: int) {
    lo.None? || lo.value < key
  }

  ghost predicate Below(key: int, hi: Option<int>) {
    hi.None? || key < hi.value
  }

  /** The exclusive lower bound on the keys of `children[i]`. */
  function Lower(n: Node, i: int, lo: Option<int>): Option<int> {
    if 0 < i <= |n.items| then Some(n.items[i - 1].key) else lo
  }

  /** The exclusive upper bound on the keys of `children[i]`. */
  function Upper(n: Node, i: int, hi: Option<int>): Option<int> {
    if 0 <= i < |n.items| then Some(n.items[i].key) else hi
  }

  /** Search-tree order: sorted items within `(lo, hi)`, one more child than items in an
      internal node, and each child within the bounds its separators set. */
  ghost predicate Ordered(n: Node, lo: Option<int>, hi: Option<int>)
    decreases n
  {
    && StrictlySorted(n.items)
    && (forall j :: 0 <= j < |n.items| ==> Above(lo, n.items[j].key) && Below(n.items[j].key, hi))
    && (n.children == [] || |n.children| == |n.items| + 1)
    && (forall i :: 0 <= i < |n.children| ==> Ordered(n.children[i], Lower(n, i, lo), Upper(n, i, hi)))
  }

  /** At every node the counters agree with the vectors. */
  ghost predicate Tallied(n: Node)
    decreases n
  {
    && n.numItems == |n.items| && n.numChildren == |n.children|
    && forall i :: 0 <= i < |n.children| ==> Tallied(n.children[i])
  }

  /** No node holds more than its `maxKeys` items, and no node below the top fewer than
      its `minKeys`. */
  ghost predicate Occupancy(n: Node)
    decreases n
  {
    && |n.items| <= n.rules.maxKeys
    && forall i :: 0 <= i < |n.children| ==>
         n.children[i].rules.minKeys <= |n.children[i].items| && Occupancy(n.children[i])
  }

  /** The length of the leftmost path. */
  function Height(n: Node): nat
    decreases n
  {
    if n.children == [] then 0 else 1 + Height(n.children[0])
  }

  /** Every leaf lies at the same depth. */
  ghost predicate Balanced(n: Node)
    decreases n
  {
    forall i :: 0 <= i < |n.children| ==> Height(n.children[i]) == Height(n) - 1 && Balanced(n.children[i])
  }

  /** `after` holds `item`, and exactly the items of `before` for every other key. */
  ghost predicate Upserts(before: Node, after: Node, item: Item) {
    && Holds(after, item)
    && forall x: Item :: x.key != item.key ==> (Holds(after, x) <==> Holds(before, x))
  }

  /** `a` and `b` have the same shape: the same keys position by position, the same
      counters and rules, and children of the same shape pairwise. Only values may differ. */
  ghost predicate SameShape(a: Node, b: Node)
    decreases a
  {
    && |a.items| == |b.items|
    && (forall j :: 0 <= j < |a.items| ==> a.items[j].key == b.items[j].key)
    && a.numItems == b.numItems && a.numChildren == b.numChildren && a.rules == b.rules
    && |a.children| == |b.children|
    && forall i :: 0 <= i < |a.children| ==> SameShape(a.children[i], b.children[i])
  }

  /** The update of `before` to `after` (for a key in range) keeps the structural invariants. */
  ghost predicate KeepsInvariants(before: Node, after: Node, key: int) {
    && after.rules == before.rules
    && |before.items| <= |after.items|
    && Height(after) == Height(before)
    && (Balanced(before) ==> Balanced(after))
    && (Tallied(before) ==> Tallied(after))
    && forall lo, hi :: Ordered(before, lo, hi) && Tallied(before) && Above(lo, key) && Below(key, hi) ==>
         Ordered(after, lo, hi)
  }

  ghost predicate KeepsOccupancy(before: Node, after: Node) {
    Tallied(before) && Occupancy(before) ==> Occupancy(after)
  }

  /** The flag `inserted` is false only when the key was already there, and in an ordered
      tree it is true exactly when the key was absent. */
  ghost predicate ReportsFresh(before: Node, key: int, inserted: bool) {
    && (!inserted ==> HasKey(before, key))
    && forall lo, hi :: Ordered(before, lo, hi) && Tallied(before) && Above(lo, key) && Below(key, hi) ==>
         (inserted <==> !HasKey(before, key))
  }

  // ---------------------------------------------------------------- lemmas about the tree

  /** Every key an ordered subtree holds lies within its bounds. */
  lemma {:induction false} OrderedKeyRange(n: Node, lo: Option<int>, hi: Option<int>, x: Item)
    requires Ordered(n, lo, hi) && Holds(n, x)
    ensures Above(lo, x.key) && Below(x.key, hi)
    decreases n
  {
    if x !in n.items {
      var i :| 0 <= i < |n.children| && Holds(n.children[i], x);
      OrderedKeyRange(n.children[i], Lower(n, i, lo), Upper(n, i, hi), x);
      if 0 < i <= |n.items| {
        assert Above(lo, n.items[i - 1].key);
      }
      if 0 <= i < |n.items| {
        assert Below(n.items[i].key, hi);
      }
    }
  }

  /** In an ordered node a key the search does not find can only live in the child the
      search points to. */
  lemma KeyLivesInSearchedChild(n: Node, lo: Option<int>, hi: Option<int>, x: Item)
    requires Ordered(n, lo, hi) && Holds(n, x)
    requires var p := BinarySearch(n.items, x.key); !p.found && p.index < |n.children|
    ensures Holds(n.children[BinarySearch(n.items, x.key).index], x)
  {
    BinarySearchSorted(n.items, x.key);
    assert x !in n.items;
    var j :| 0 <= j < |n.children| && Holds(n.children[j], x);
    OrderedKeyRange(n.children[j], Lower(n, j, lo), Upper(n, j, hi), x);
    ChildKeyBetweenSeparators(n, lo, hi, j, x.key);
    SearchGapUnique(n.items, x.key, j);
  }

  /** The only gap of sorted items whose neighbours bracket a missing key is the one the
      search returns. */
  lemma SearchGapUnique(items: seq<Item>, key: int, j: int)
    requires StrictlySorted(items) && !BinarySearch(items, key).found && 0 <= j <= |items|
    requires 0 < j ==> items[j - 1].key < key
    requires j < |items| ==> key < items[j].key
    ensures j == BinarySearch(items, key).index
  {
    BinarySearchSorted(items, key);
    var i := BinarySearch(items, key).index;
    if j < i {
      assert false;
    } else if j > i {
      assert false;
    }
  }

  /** The key the search does not find lies within the bounds of the child it points to. */
  lemma SearchedChildBounds(n: Node, lo: Option<int>, hi: Option<int>, key: int)
    requires StrictlySorted(n.items) && Above(lo, key) && Below(key, hi)
    requires !BinarySearch(n.items, key).found
    ensures var i := BinarySearch(n.items, key).index;
      Above(Lower(n, i, lo), key) && Below(key, Upper(n, i, hi))
  {
    BinarySearchSorted(n.items, key);
  }

  /** Keys are unique across an ordered tree: two items it holds with one key are one item. */
  lemma {:induction false} OrderedUnique(n: Node, lo: Option<int>, hi: Option<int>, x: Item, y: Item)
    requires Ordered(n, lo, hi) && Holds(n, x) && Holds(n, y) && x.key == y.key
    ensures x == y
    decreases n
  {
    var p := BinarySearch(n.items, x.key);
    BinarySearchSorted(n.items, x.key);
    if p.found {
      FoundKeyIsEntry(n, lo, hi, x);
      FoundKeyIsEntry(n, lo, hi, y);
    } else {
      KeyLivesInSearchedChild(n, lo, hi, x);
      KeyLivesInSearchedChild(n, lo, hi, y);
      OrderedUnique(n.children[p.index], Lower(n, p.index, lo), Upper(n, p.index, hi), x, y);
    }
  }

  /** In an ordered node, an item with a key the node's own items contain is that entry. */
  lemma FoundKeyIsEntry(n: Node, lo: Option<int>, hi: Option<int>, x: Item)
    requires Ordered(n, lo, hi) && Holds(n, x)
    requires BinarySearch(n.items, x.key).found
    ensures x == n.items[BinarySearch(n.items, x.key).index]
  {
    var k := BinarySearch(n.items, x.key).index;
    var items := n.items;
    assert StrictlySorted(items);
    if x in items {
      var j :| 0 <= j < |items| && items[j] == x;
      assert !(j < k) && !(k < j);
    } else {
      var i :| 0 <= i < |n.children| && Holds(n.children[i], x);
      assert |n.children| == |items| + 1;
      OrderedKeyRange(n.children[i], Lower(n, i, lo), Upper(n, i, hi), x);
      ChildKeyBetweenSeparators(n, lo, hi, i, x.key);
      SeparatorsBracket(items, i, x.key);
      assert false;
    }
  }

  /** A key held by `children[i]` of an ordered node lies strictly between the separators
      around that child. */
  lemma ChildKeyBetweenSeparators(n: Node, lo: Option<int>, hi: Option<int>, i: int, key: int)
    requires 0 <= i <= |n.items|
    requires Above(Lower(n, i, lo), key) && Below(key, Upper(n, i, hi))
    ensures 0 < i ==> n.items[i - 1].key < key
    ensures i < |n.items| ==> key < n.items[i].key
  {
  }

  /** A key strictly between the neighbours of gap `i` of sorted items is none of theirs. */
  lemma SeparatorsBracket(items: seq<Item>, i: int, key: int)
    requires StrictlySorted(items) && 0 <= i <= |items|
    requires 0 < i ==> items[i - 1].key < key
    requires i < |items| ==> key < items[i].key
    ensures forall j :: 0 <= j < |items| ==> items[j].key != key
  {
    forall j | 0 <= j < |items| ensures items[j].key != key {
      if j < i - 1 {
        assert items[j].key < items[i - 1].key;
      } else if j > i {
        assert items[i].key < items[j].key;
      }
    }
  }

  /** Every node has its own shape. */
  lemma {:induction false} SameShapeRefl(n: Node)
    ensures SameShape(n, n)
    decreases n
  {
    forall i | 0 <= i < |n.children| ensures SameShape(n.children[i], n.children[i]) {
      SameShapeRefl(n.children[i]);
    }
  }

  /** Replacing one child by a node of the same shape keeps the parent's shape. */
  lemma SameShapeReplace(n: Node, i: int, child: Node)
    requires 0 <= i < |n.children| && SameShape(n.children[i], child)
    ensures SameShape(n, n.(children := n.children[i := child]))
  {
    var after := n.(children := n.children[i := child]);
    forall j | 0 <= j < |n.children| ensures SameShape(n.children[j], after.children[j]) {
      if j != i {
        SameShapeRefl(n.children[j]);
      }
    }
  }

  /** What replacing one child changes in what a node holds. */
  lemma ReplaceChild(n: Node, i: int, child: Node)
    requires 0 <= i < |n.children|
    ensures var after := n.(children := n.children[i := child]);
      && (forall x :: Holds(child, x) ==> Holds(after, x))
      && (forall x :: Holds(n.children[i], x) ==> Holds(n, x))
      && (forall x :: Holds(after, x) ==> Holds(child, x) || Holds(n, x))
      && (forall x :: Holds(n, x) ==> Holds(n.children[i], x) || Holds(after, x))
  {
    var after := n.(children := n.children[i := child]);
    forall x | Holds(child, x) ensures Holds(after, x) {
      assert Holds(after.children[i], x);
    }
    forall x | Holds(n.children[i], x) ensures Holds(n, x) {
    }
    forall x | Holds(after, x) ensures Holds(child, x) || Holds(n, x) {
      if x !in after.items {
        var j :| 0 <= j < |after.children| && Holds(after.children[j], x);
        if j != i {
          assert Holds(n.children[j], x);
        }
      }
    }
    forall x | Holds(n, x) ensures Holds(n.children[i], x) || Holds(after, x) {
      if x !in n.items {
        var j :| 0 <= j < |n.children| && Holds(n.children[j], x);
        if j != i {
          assert Holds(after.children[j], x);
        }
      }
    }
  }

  /** Case 1 of `Node::insert`: overwriting the entry the search found. */
  lemma OverwriteKeeps(n: Node, item: Item)
    requires BinarySearch(n.items, item.key).found
    ensures var after := n.(items := n.items[BinarySearch(n.items, item.key).index := item]);
      && Upserts(n, after, item) && KeepsInvariants(n, after, item.key)
      && KeepsOccupancy(n, after) && ReportsFresh(n, item.key, false)
  {
    var p := BinarySearch(n.items, item.key);
    var after := n.(items := n.items[p.index := item]);
    assert after.items[p.index] == item;
    forall x: Item | x.key != item.key ensures Holds(after, x) <==> Holds(n, x) {
      if x in n.items {
        var j :| 0 <= j < |n.items| && n.items[j] == x;
        assert after.items[j] == x;
      }
      if x in after.items {
        var j :| 0 <= j < |after.items| && after.items[j] == x;
        assert n.items[j] == x;
      }
    }
    assert Holds(n, n.items[p.index]);
    forall lo, hi | Ordered(n, lo, hi) && Above(lo, item.key) && Below(item.key, hi)
      ensures Ordered(after, lo, hi)
    {
      OverwriteOrdered(n, item, lo, hi);
    }
  }

  /** Overwriting the found entry with an item of the same key keeps the node ordered. */
  lemma OverwriteOrdered(n: Node, item: Item, lo: Option<int>, hi: Option<int>)
    requires BinarySearch(n.items, item.key).found
    requires Ordered(n, lo, hi) && Above(lo, item.key) && Below(item.key, hi)
    ensures Ordered(n.(items := n.items[BinarySearch(n.items, item.key).index := item]), lo, hi)
  {
    var p := BinarySearch(n.items, item.key);
    var after := n.(items := n.items[p.index := item]);
    assert forall j :: 0 <= j < |n.items| ==> after.items[j].key == n.items[j].key;
    assert StrictlySorted(after.items);
    forall i | 0 <= i < |after.children|
      ensures Lower(after, i, lo) == Lower(n, i, lo) && Upper(after, i, hi) == Upper(n, i, hi)
    {
    }
  }

  /** Case 2 of `Node::insert`: the insertable leaf takes the item at the search position. */
  lemma LeafInsertKeeps(n: Node, item: Item)
    requires !BinarySearch(n.items, item.key).found && n.numChildren == 0
    ensures var after := Grown(n, item);
      && Upserts(n, after, item) && KeepsInvariants(n, after, item.key)
      && ReportsFresh(n, item.key, true)
      && (n.numItems < n.rules.maxKeys ==> KeepsOccupancy(n, after))
  {
    var after := Grown(n, item);
    forall x ensures x in after.items <==> x == item || x in n.items {
      assert x in after.items <==> x in multiset(after.items);
      assert x in n.items <==> x in multiset(n.items);
    }
    forall x: Item | x.key != item.key ensures Holds(after, x) <==> Holds(n, x) {
    }
    forall lo, hi | Ordered(n, lo, hi) && Tallied(n) && Above(lo, item.key) && Below(item.key, hi)
      ensures Ordered(after, lo, hi) && !HasKey(n, item.key)
    {
      LeafInsertOrdered(n, item, lo, hi);
    }
  }

  lemma LeafInsertOrdered(n: Node, item: Item, lo: Option<int>, hi: Option<int>)
    requires !BinarySearch(n.items, item.key).found && n.children == []
    requires Ordered(n, lo, hi) && Above(lo, item.key) && Below(item.key, hi)
    ensures Ordered(Grown(n, item), lo, hi) && !HasKey(n, item.key)
  {
    var i := BinarySearch(n.items, item.key).index;
    var grown := InsertAt(n.items, i, item);
    InsertAtSearchPosition(n.items, item);
    BinarySearchSorted(n.items, item.key);
    forall j | 0 <= j < |grown|
      ensures Above(lo, grown[j].key) && Below(grown[j].key, hi)
    {
      if j < i {
        assert grown[j] == n.items[j];
      } else if j > i {
        assert grown[j] == n.items[j - 1];
      }
    }
    forall x | Holds(n, x) ensures x.key != item.key {
      assert x in n.items;
    }
  }

  /** Descent in `Node::insert`: only the searched child changes, and it changed well. */
  lemma DescendKeeps(n: Node, item: Item, child: Node)
    requires var p := BinarySearch(n.items, item.key); !p.found && p.index < |n.children|
    requires var c := n.children[BinarySearch(n.items, item.key).index];
      Upserts(c, child, item) && KeepsInvariants(c, child, item.key)
    ensures var after := n.(children := n.children[BinarySearch(n.items, item.key).index := child]);
      Upserts(n, after, item) && KeepsInvariants(n, after, item.key)
  {
    var i := BinarySearch(n.items, item.key).index;
    var c := n.children[i];
    var after := n.(children := n.children[i := child]);
    ReplaceChild(n, i, child);
    assert Height(after) == Height(n) by {
      if i == 0 {
        assert after.children[0] == child;
      } else {
        assert after.children[0] == n.children[0];
      }
    }
    if Balanced(n) {
      forall j | 0 <= j < |after.children|
        ensures Height(after.children[j]) == Height(after) - 1 && Balanced(after.children[j])
      {
        if j != i {
          assert after.children[j] == n.children[j];
        }
      }
    }
    if Tallied(n) {
      forall j | 0 <= j < |after.children| ensures Tallied(after.children[j]) {
        if j != i {
          assert after.children[j] == n.children[j];
        }
      }
    }
    forall lo, hi | Ordered(n, lo, hi) && Tallied(n) && Above(lo, item.key) && Below(item.key, hi)
      ensures Ordered(after, lo, hi)
    {
      DescendOrdered(n, item, child, lo, hi);
    }
  }

  /** Replacing the searched child by an update that keeps it ordered keeps the parent ordered. */
  lemma DescendOrdered(n: Node, item: Item, child: Node, lo: Option<int>, hi: Option<int>)
    requires var p := BinarySearch(n.items, item.key); !p.found && p.index < |n.children|
    requires Ordered(n, lo, hi) && Tallied(n) && Above(lo, item.key) && Below(item.key, hi)
    requires var i := BinarySearch(n.items, item.key).index;
      var c := n.children[i];
      forall l, u :: Ordered(c, l, u) && Tallied(c) && Above(l, item.key) && Below(item.key, u) ==>
        Ordered(child, l, u)
    ensures Ordered(n.(children := n.children[BinarySearch(n.items, item.key).index := child]), lo, hi)
  {
    var i := BinarySearch(n.items, item.key).index;
    var c := n.children[i];
    var after := n.(children := n.children[i := child]);
    SearchedChildBounds(n, lo, hi, item.key);
    var l, u := Lower(n, i, lo), Upper(n, i, hi);
    assert Ordered(c, l, u) && Tallied(c);
    assert Ordered(child, l, u);
    assert after.items == n.items;
    forall j | 0 <= j < |after.children|
      ensures Ordered(after.children[j], Lower(after, j, lo), Upper(after, j, hi))
    {
      if j != i {
        assert after.children[j] == n.children[j];
      }
    }
  }

  /** The descent case of `Node::insert` as a whole: what the child's insert promises,
      the parent whose searched child it replaces promises too. */
  lemma DescendInsert(n: Node, item: Item, child: Node, inserted: bool)
    requires var p := BinarySearch(n.items, item.key);
      !p.found && !n.InsertableLeaf() && p.index < |n.children|
    requires var c := n.children[BinarySearch(n.items, item.key).index];
      && Upserts(c, child, item) && KeepsInvariants(c, child, item.key)
      && KeepsOccupancy(c, child) && ReportsFresh(c, item.key, inserted)
      && (!inserted ==> SameShape(c, child))
      && (inserted ==> GrowsAlong(c, child, item))
    ensures var after := n.(children := n.children[BinarySearch(n.items, item.key).index := child]);
      && Upserts(n, after, item) && KeepsInvariants(n, after, item.key)
      && KeepsOccupancy(n, after) && ReportsFresh(n, item.key, inserted)
      && (!inserted ==> SameShape(n, after))
      && (inserted ==> GrowsAlong(n, after, item))
  {
    var i := BinarySearch(n.items, item.key).index;
    DescendKeeps(n, item, child);
    DescendReports(n, item, inserted);
    DescendOccupancy(n, item, child);
    if !inserted {
      SameShapeReplace(n, i, child);
    }
  }

  /** Descent in `Node::insert` passes the child's flag up, and it keeps its meaning. */
  lemma DescendReports(n: Node, item: Item, inserted: bool)
    requires var p := BinarySearch(n.items, item.key); !p.found && p.index < |n.children|
    requires ReportsFresh(n.children[BinarySearch(n.items, item.key).index], item.key, inserted)
    ensures ReportsFresh(n, item.key, inserted)
  {
    var i := BinarySearch(n.items, item.key).index;
    var c := n.children[i];
    if !inserted {
      var x :| Holds(c, x) && x.key == item.key;
      assert Holds(n, x);
    }
    forall lo, hi | Ordered(n, lo, hi) && Tallied(n) && Above(lo, item.key) && Below(item.key, hi)
      ensures inserted <==> !HasKey(n, item.key)
    {
      SearchedChildBounds(n, lo, hi, item.key);
      var l, u := Lower(n, i, lo), Upper(n, i, hi);
      assert Ordered(c, l, u) && Tallied(c);
      assert inserted <==> !HasKey(c, item.key);
      if HasKey(n, item.key) {
        var x :| Holds(n, x) && x.key == item.key;
        KeyLivesInSearchedChild(n, lo, hi, x);
      }
    }
  }

  /** Descent in `Node::insert` keeps occupancy when the child's update keeps it. */
  lemma DescendOccupancy(n: Node, item: Item, child: Node)
    requires var p := BinarySearch(n.items, item.key); !p.found && p.index < |n.children|
    requires var c := n.children[BinarySearch(n.items, item.key).index];
      KeepsOccupancy(c, child) && KeepsInvariants(c, child, item.key)
    ensures KeepsOccupancy(n, n.(children := n.children[BinarySearch(n.items, item.key).index := child]))
  {
    var i := BinarySearch(n.items, item.key).index;
    var after := n.(children := n.children[i := child]);
    if Tallied(n) && Occupancy(n) {
      forall j | 0 <= j < |after.children|
        ensures after.children[j].rules.minKeys <= |after.children[j].items| && Occupancy(after.children[j])
      {
        if j != i {
          assert after.children[j] == n.children[j];
        }
      }
    }
  }

  // ---------------------------------------------------------------- the tree

  /** The node whose search result `BTree::find` returns: starting at `n`, the loop moves
      into `children[index]` while the key is not found and that child has a nonzero
      `numChildren`, so it never moves into a leaf. */
  function LastVisited(n: Node, key: int): (last: Node)
    ensures last == n || last.numChildren > 0
    ensures var p := BinarySearch(last.items, key);
      p.found || p.index >= |last.children| || last.children[p.index].numChildren <= 0
    ensures forall x :: Holds(last, x) ==> Holds(n, x)
    decreases n
  {
    var p := BinarySearch(n.items, key);
    if !p.found && p.index < |n.children| && n.children[p.index].numChildren > 0 then
      var last := LastVisited(n.children[p.index], key);
      assert forall x :: Holds(last, x) ==> Holds(n.children[p.index], x);
      last
    else
      n
  }

  /** In an ordered tree the loop of `BTree::find` follows a key the tree holds: where it
      stops, the key is either the entry the search found, or it lies in the child the
      search points to, a node with no positive `numChildren` that the loop does not enter. */
  lemma {:induction false} LastVisitedHolds(n: Node, lo: Option<int>, hi: Option<int>, x: Item)
    requires Ordered(n, lo, hi) && Holds(n, x)
    ensures var last := LastVisited(n, x.key);
      var p := BinarySearch(last.items, x.key);
      || (p.found && last.items[p.index] == x)
      || (!p.found && p.index < |last.children| && Holds(last.children[p.index], x) &&
          last.children[p.index].numChildren <= 0)
    decreases n
  {
    var p := BinarySearch(n.items, x.key);
    BinarySearchSorted(n.items, x.key);
    if p.found {
      FoundKeyIsEntry(n, lo, hi, x);
    } else {
      assert x !in n.items;
      KeyLivesInSearchedChild(n, lo, hi, x);
      if n.children[p.index].numChildren > 0 {
        LastVisitedHolds(n.children[p.index], Lower(n, p.index, lo), Upper(n, p.index, hi), x);
      }
    }
  }

  /** `BTree`: the owner of the root node. */
  datatype BTree = BTree(root: Node)
  {
    /** `BTree::new`: a tree whose root is an empty leaf. */
    static function New(degree: int): (t: BTree)
      requires degree >= 1
      ensures t.root.items == [] && t.root.children == [] && t.root.rules == NewRules(degree)
      ensures t.Valid() && Height(t.root) == 0
    {
      BTree(Node.New(degree))
    }

    /** The invariants of a B-tree that the draft's operations are checked against. */
    ghost predicate Valid() {
      Ordered(root, None, None) && Tallied(root) && Occupancy(root) && Balanced(root)
    }

    /** `BTree::find`: the loop of the draft, proved to return the search result of
        `LastVisited`; the guard `children[position]` panics when `position` is out of
        range, which always happens on a leaf root that lacks the key. */
    method Find(item: Item) returns (r: Outcome<Probe>)
      ensures var last := LastVisited(root, item.key);
        var p := BinarySearch(last.items, item.key);
        r == if !p.found && p.index >= |last.children| then Panic(ChildIndexOutOfRange) else Ok(p)
      ensures r.Ok? && r.value.found ==> HasKey(root, item.key)
      ensures root.children == [] && !BinarySearch(root.items, item.key).found ==>
        r == Panic(ChildIndexOutOfRange)
      // in an ordered tree a key it holds never panics, and is missed only when it sits in
      // the child the search points to, a leaf the loop does not enter
      ensures Ordered(root, None, None) && HasKey(root, item.key) ==> r.Ok?
      ensures Ordered(root, None, None) && HasKey(root, item.key) && r.Ok? && !r.value.found ==>
        var last := LastVisited(root, item.key);
        && r.value.index < |last.children|
        && last.children[r.value.index].numChildren <= 0
        && HasKey(last.children[r.value.index], item.key)
    {
      if Ordered(root, None, None) && HasKey(root, item.key) {
        var x :| Holds(root, x) && x.key == item.key;
        LastVisitedHolds(root, None, None, x);
      }
      var node := root;
      var position, found := node.Search(item);
      while !found && position < |node.children| && node.children[position].numChildren > 0
        invariant LastVisited(node, item.key) == LastVisited(root, item.key)
        invariant Probe(position, found) == BinarySearch(node.items, item.key)
        decreases node
      {
        node := node.children[position];
        position, found := node.Search(item);
      }
      if !found && position >= |node.children| {
        return Panic(ChildIndexOutOfRange);
      }
      if found {
        assert Holds(node, node.items[position]);
      }
      return Ok(Probe(position, found));
    }

    /** `BTree::root_split`: it splits the root and then reads `root.items[median]` from
        the root the split has just cut to `median` items, so it always panics. */
    method RootSplit() returns (r: Outcome<BTree>)
      ensures r == Panic(ItemIndexOutOfRange)
    {
      var median, shrunk, rightChild := root.Split();
      // the new root's item is read as `root.items[median]`
      if median < |shrunk.items| {
        assert false;
      }
      return Panic(ItemIndexOutOfRange);
    }

    /** `BTree::insert`: insert at the root, then split the root if the insert added an item
        and the root's `numItems` reached `maxChildren`. */
    method Insert(item: Item) returns (r: Outcome<BTree>)
      ensures r.Ok? ==> Upserts(root, r.value.root, item) && KeepsInvariants(root, r.value.root, item.key)
      ensures r.Ok? && Valid() ==> r.value.Valid()
      ensures r.Ok? && Valid() ==> forall x :: Holds(r.value.root, x) && x.key == item.key ==> x == item
      ensures r.Ok? ==> Height(r.value.root) == Height(root)
      ensures (Tallied(root) && root.children == [] && |root.items| >= root.rules.maxKeys &&
               !HasKey(root, item.key)) ==> r == Panic(ChildIndexOutOfRange)
      // a key in the root is overwritten there
      ensures var p := BinarySearch(root.items, item.key);
        p.found ==> r == Ok(BTree(root.(items := root.items[p.index := item])))
      // an insertable leaf root takes the item, and `root_split` follows once it reaches `maxChildren`
      ensures !BinarySearch(root.items, item.key).found && root.InsertableLeaf() ==>
        r == if root.rules.maxChildren <= root.numItems + 1 then Panic(ItemIndexOutOfRange)
             else Ok(BTree(Grown(root, item)))
      // below the root it panics exactly where `Node::insert` does, unless the root is already over `maxChildren`
      ensures InsertPanics(root, item.key) ==> r.Panic?
      ensures !InsertPanics(root, item.key) && root.numItems + 1 < root.rules.maxChildren ==> r.Ok?
      // in a valid tree, overwriting a key it holds keeps the shape and every counter
      ensures r.Ok? && Valid() && HasKey(root, item.key) ==> SameShape(root, r.value.root)
      // on a descent the root keeps its `numItems`, so below `maxChildren` no root split follows
      ensures !InsertPanics(root, item.key) && !root.InsertableLeaf() && root.numItems < root.rules.maxChildren ==>
        r.Ok?
      // in a valid tree a fresh key changes only the search path, ending in a `Grown` leaf
      ensures r.Ok? && Valid() && !HasKey(root, item.key) ==> GrowsAlong(root, r.value.root, item)
    {
      var rr := root.Insert(item);
      if rr.Panic? {
        return Panic(rr.fault);
      }
      var t := BTree(rr.value.node);
      if rr.value.inserted {
        if t.root.rules.maxChildren <= t.root.numItems {
          r := t.RootSplit();
          return;
        }
      }
      r := Ok(t);
      if Valid() {
        forall x | Holds(t.root, x) && x.key == item.key ensures x == item {
          OrderedUnique(t.root, None, None, x, item);
        }
      }
    }
  }

  /** `BTree::find` never looks inside a leaf below the root: in this ordered tree the key 3
      sits in the left leaf, yet the search stops at the root and reports it absent. */
  lemma FindSkipsLeaves()
    ensures var rules := NewRules(NodeDegree);
      var left := Node([Item(3, 30)], [], 1, 0, rules);
      var right := Node([Item(9, 90)], [], 1, 0, rules);
      var root := Node([Item(7, 70)], [left, right], 1, 2, rules);
      && BTree(root).Valid() && HasKey(root, 3)
      && LastVisited(root, 3) == root && BinarySearch(root.items, 3) == Probe(0, false)
  {
    var rules := NewRules(NodeDegree);
    var left := Node([Item(3, 30)], [], 1, 0, rules);
    var right := Node([Item(9, 90)], [], 1, 0, rules);
    var root := Node([Item(7, 70)], [left, right], 1, 2, rules);
    assert Holds(root.children[0], Item(3, 30));
    assert Ordered(left, None, Some(7)) && Ordered(right, Some(7), None);
    assert Height(left) == 0 && Height(right) == 0 && Height(root) == 1;
    assert Balanced(left) && Balanced(right);
  }
  /** `Node::insert` descends below the root: in the tree of `FindSkipsLeaves` a new key 5
      goes into the left leaf, which has room, so no panic path is taken, while a new key
      in a full leaf root panics. */
  lemma InsertDescendsIntoLeaf()
    ensures var rules := NewRules(NodeDegree);
      var left := Node([Item(3, 30)], [], 1, 0, rules);
      var right := Node([Item(9, 90)], [], 1, 0, rules);
      var root := Node([Item(7, 70)], [left, right], 1, 2, rules);
      var full := Node([Item(1, 10), Item(2, 20), Item(3, 30)], [], 3, 0, rules);
      !InsertPanics(root, 5) && InsertPanics(full, 4)
  {
    var rules := NewRules(NodeDegree);
    var left := Node([Item(3, 30)], [], 1, 0, rules);
    var root := Node([Item(7, 70)], [left, Node([Item(9, 90)], [], 1, 0, rules)], 1, 2, rules);
    var full := Node([Item(1, 10), Item(2, 20), Item(3, 30)], [], 3, 0, rules);
    assert BinarySearch(root.items, 5) == Probe(0, false);
    assert BinarySearch(left.items, 5) == Probe(1, false);
    assert BinarySearch(full.items, 4) == Probe(3, false);
  }
}

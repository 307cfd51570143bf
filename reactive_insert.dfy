/** A model of the bottom-up insert sketch in src/scraps/reactive_insert.rs, built on the
    nodes of `BTrees`. The sketch calls helpers it does not define; they are taken as
    `binary_search` = `Node.Search`, `leaf()` = "`numChildren` is 0", the two-argument
    `split` = `Node.Split` (its first component is the median index), and `full_reactive`
    = the predicate `full`, a parameter because the sketch leaves it open. */
module ReactiveInsert {
  import opened BTrees

  /** The split a leaf hands back to its parent: the median index and the new node. */
  datatype Promotion = Promotion(median: int, sibling: Node)

  /** What `insert_reactive` produces: the updated node and what it hands to its caller. */
  datatype Reaction = Reaction(node: Node, promoted: Option<Promotion>)

  /** `leaf()`: reads the counter, not `children`. */
  predicate IsLeaf(n: Node): (leaf: bool)
    ensures Tallied(n) ==> (leaf <==> n.children == [])
  {
    n.numChildren == 0
  }

  /** The leaf whose insert hands a split up: it lacks the key and `full` holds of it once
      the item is in (lines 14-22). */
  predicate SplitsLeaf(n: Node, item: Item, full: Node -> bool) {
    !BinarySearch(n.items, item.key).found && IsLeaf(n) && full(Grown(n, item))
  }

  /** The paths on which `insert_reactive` panics: the key is not in an internal node, and
      `children[position]` is out of range, or the searched child panics, or it hands up a
      split whose median the parent then reads one past the end. */
  predicate ReactivePanics(n: Node, item: Item, full: Node -> bool)
    decreases n
  {
    var p := BinarySearch(n.items, item.key);
    && !p.found && !IsLeaf(n)
    && (p.index >= |n.children|
        || ReactivePanics(n.children[p.index], item, full)
        || SplitsLeaf(n.children[p.index], item, full))
  }

  /** The descent of `insert_reactive` meets the key: this node holds it, or this internal
      node's searched child leads to it. */
  predicate FoundOnPath(n: Node, key: int)
    decreases n
  {
    var p := BinarySearch(n.items, key);
    p.found || (!IsLeaf(n) && p.index < |n.children| && FoundOnPath(n.children[p.index], key))
  }

  /** In an ordered, tallied tree the descent meets exactly the keys the tree holds. */
  lemma {:induction false} FoundOnPathHasKey(n: Node, lo: Option<int>, hi: Option<int>, key: int)
    requires Ordered(n, lo, hi) && Tallied(n) && Above(lo, key) && Below(key, hi)
    ensures FoundOnPath(n, key) <==> HasKey(n, key)
    decreases n
  {
    var p := BinarySearch(n.items, key);
    BinarySearchSorted(n.items, key);
    if p.found {
      assert Holds(n, n.items[p.index]);
    } else if !IsLeaf(n) && p.index < |n.children| {
      var c := n.children[p.index];
      SearchedChildBounds(n, lo, hi, key);
      FoundOnPathHasKey(c, Lower(n, p.index, lo), Upper(n, p.index, hi), key);
      if HasKey(n, key) {
        var x :| Holds(n, x) && x.key == key;
        KeyLivesInSearchedChild(n, lo, hi, x);
      }
      if HasKey(c, key) {
        var x :| Holds(c, x) && x.key == key;
        assert Holds(n, x);
      }
    }
  }

  /** `b` is `a` after a fresh item went in along the reactive descent without a split:
      every internal node on the path keeps everything but the searched child, and the leaf
      at its end is `Grown`. */
  ghost predicate ReactiveGrows(a: Node, b: Node, item: Item)
    decreases a
  {
    var p := BinarySearch(a.items, item.key);
    && !p.found
    && if IsLeaf(a) then b == Grown(a, item)
       else
         && p.index < |a.children| && |b.children| == |a.children|
         && b == a.(children := a.children[p.index := b.children[p.index]])
         && ReactiveGrows(a.children[p.index], b.children[p.index], item)
  }

  /** `insert_reactive`. */
  method InsertReactive(node: Node, item: Item, full: Node -> bool) returns (r: Outcome<Reaction>)
    decreases node
    // the key is in this node: it is overwritten and nothing is handed up
    ensures var p := BinarySearch(node.items, item.key);
      p.found ==> r == Ok(Reaction(node.(items := node.items[p.index := item]), None))
    // a leaf that is not full after the insert hands nothing up
    ensures !BinarySearch(node.items, item.key).found && IsLeaf(node) && !full(Grown(node, item)) ==>
      r == Ok(Reaction(Grown(node, item), None))
    // a leaf that is full after the insert is split, and the split is handed up
    ensures !BinarySearch(node.items, item.key).found && IsLeaf(node) && full(Grown(node, item)) ==>
      var g := Grown(node, item);
      var m := |g.items| / 2;
      r == Ok(Reaction(g.(items := g.items[..m], numItems := g.numItems - (|g.items| - m)),
                       Some(Promotion(m, Node(g.items[m..], [], m - |g.items|, 0, NewRules(NodeDegree))))))
    // an internal node indexes `children[position]` out of range
    ensures var p := BinarySearch(node.items, item.key);
      !p.found && !IsLeaf(node) && p.index >= |node.children| ==> r == Panic(ChildIndexOutOfRange)
    // an overwrite, here or below, hands nothing up and keeps the shape and every counter
    ensures r.Ok? && FoundOnPath(node, item.key) ==>
      r.value.promoted.None? && SameShape(node, r.value.node)
    // a fresh key that splits nothing changes only the path, ending in a `Grown` leaf
    ensures r.Ok? && r.value.promoted.None? && !FoundOnPath(node, item.key) ==>
      ReactiveGrows(node, r.value.node, item)
    // an internal node changes only the child at the search position, and hands nothing up
    ensures var p := BinarySearch(node.items, item.key);
      !p.found && !IsLeaf(node) && p.index < |node.children| && r.Ok? ==>
        && r.value.promoted.None?
        && |r.value.node.children| == |node.children|
        && r.value.node == node.(children := node.children[p.index := r.value.node.children[p.index]])
    // only a leaf hands a split up; the node it leaves holds exactly `median` items
    ensures r.Ok? && r.value.promoted.Some? ==>
      IsLeaf(node) && |r.value.node.items| == r.value.promoted.value.median
    // a split handed up by a leaf child ends in the out-of-range read of line 36
    ensures var p := BinarySearch(node.items, item.key);
      (!p.found && !IsLeaf(node) && p.index < |node.children| && SplitsLeaf(node.children[p.index], item, full))
        ==> r == Panic(ItemIndexOutOfRange)
    // it panics exactly on the paths `ReactivePanics` describes, and succeeds on all others
    ensures r.Panic? <==> ReactivePanics(node, item, full)
    // when nothing is handed up, the item is upserted and the invariants are kept
    ensures r.Ok? && r.value.promoted.None? ==>
      Upserts(node, r.value.node, item) && KeepsInvariants(node, r.value.node, item.key)
    // when a split is handed up, the two halves hold the grown leaf's items in order
    ensures r.Ok? && r.value.promoted.Some? ==>
      && !BinarySearch(node.items, item.key).found
      && r.value.node.items + r.value.promoted.value.sibling.items == Grown(node, item).items
      && (StrictlySorted(node.items) ==>
            StrictlySorted(r.value.node.items) && StrictlySorted(r.value.promoted.value.sibling.items))
  {
    var position, found := node.Search(item);
    if found {
      OverwriteKeeps(node, item);
      SameShapeRefl(node);
      return Ok(Reaction(node.(items := node.items[position := item]), None));
    }
    if IsLeaf(node) {
      var grown := node.(items := InsertAt(node.items, position, item));
      grown := grown.(numItems := grown.numItems + 1);
      assert grown == Grown(node, item);
      if full(grown) {
        var median, shrunk, sibling := grown.Split();
        assert shrunk.items == grown.items[..median] && sibling.items == grown.items[median..] by {
          assert grown.items == shrunk.items + sibling.items;
        }
        assert shrunk == grown.(items := grown.items[..median], numItems := grown.numItems - (|grown.items| - median));
        assert sibling == Node(grown.items[median..], [], median - |grown.items|, 0, NewRules(NodeDegree));
        if StrictlySorted(node.items) {
          InsertAtSearchPosition(node.items, item);
        }
        return Ok(Reaction(shrunk, Some(Promotion(median, sibling))));
      }
      LeafInsertKeeps(node, item);
      return Ok(Reaction(grown, None));
    }
    if position >= |node.children| {
      return Panic(ChildIndexOutOfRange);
    }
    var rc := InsertReactive(node.children[position], item, full);
    if rc.Panic? {
      return Panic(rc.fault);
    }
    var children := node.children[position := rc.value.node];
    if rc.value.promoted.Some? {
      // the promoted item is read as `children[position].items[median_idx_of_split]`
      if rc.value.promoted.value.median < |children[position].items| {
        assert false;
      }
      return Panic(ItemIndexOutOfRange);
    }
    DescendKeeps(node, item, rc.value.node);
    if FoundOnPath(node, item.key) {
      SameShapeReplace(node, position, rc.value.node);
    }
    return Ok(Reaction(node.(children := children), None));
  }
}

/** The node of the variant with one empty value per height: the same
    storage as `MerkleNode` (a cached item and `A` optional children, a
    leaf at depth `H` caching its stored item), the same insertion and
    removal, but a stale node's item is rebuilt from the empty values of
    the heights involved rather than from one empty value.
 */
module HeightNode {
  import opened Merkle
  import opened Sparse
  import MerkleNode

  /** The parameters of the variant: the tree's shape and aggregation, and
      the empty values by height, `empties[h]` standing for an empty
      subtree whose root is at height `h`. */
  datatype Levels<!T> = Levels(cfg: Config<T>, empties: seq<T>)

  /** The node with every cache above the leaves dropped: the storage
      alone, without the memoised items. */
  function Strip<T>(cfg: Config<T>, n: MerkleNode.Node<T>, depth: nat): (s: MerkleNode.Node<T>)
    ensures |s.children| == |n.children|
    ensures forall i | 0 <= i < |n.children| :: s.children[i].Some? == n.children[i].Some?
    decreases n
  {
    MerkleNode.Node(
      if depth >= cfg.height then n.item else None,
      seq(|n.children|, i requires 0 <= i < |n.children| =>
        if n.children[i].Some? then Some(Strip(cfg, n.children[i].value, depth + 1)) else None))
  }

  /** Dropping the caches keeps the content. */
  lemma {:induction false} StripAbs<T>(cfg: Config<T>, n: MerkleNode.Node<T>, depth: nat)
    ensures MerkleNode.Abs(cfg, Strip(cfg, n, depth), depth) == MerkleNode.Abs(cfg, n, depth)
    ensures MerkleNode.Kids(cfg, Strip(cfg, n, depth), depth) == MerkleNode.Kids(cfg, n, depth)
    decreases n
  {
    var s := Strip(cfg, n, depth);
    forall i | 0 <= i < |n.children| && n.children[i].Some?
      ensures MerkleNode.Abs(cfg, s.children[i].value, depth + 1) == MerkleNode.Abs(cfg, n.children[i].value, depth + 1)
    {
      StripAbs(cfg, n.children[i].value, depth + 1);
    }
    assert MerkleNode.Kids(cfg, s, depth) == MerkleNode.Kids(cfg, n, depth);
  }

  /** The storage invariant of the canonical node, caches aside; the
      content is then well formed. */
  ghost predicate Shaped<T>(cfg: Config<T>, n: MerkleNode.Node<T>, depth: nat)
  {
    && MerkleNode.Valid(cfg, Strip(cfg, n, depth), depth)
    && WellFormed(cfg, MerkleNode.Abs(cfg, n, depth), depth)
  }

  /** The item of a subtree whose root is at `depth`, as the variant means
      it: the empty value of that height for an empty subtree, the stored
      item for a leaf, and the aggregate of the `A` slots, each taken at
      the height below, for a node above the leaves. This needs an empty
      value for every height from the root to the leaves. */
  function LevelDigest<T>(lv: Levels<T>, t: Subtree<T>, depth: nat): T
    requires |lv.empties| == lv.cfg.height + 1 && depth <= lv.cfg.height
    decreases t
  {
    match t
    case Empty => lv.empties[depth]
    case Leaf(v) => v
    case Inner(kids) =>
      if depth == lv.cfg.height then lv.empties[depth]
      else lv.cfg.agg.aggregate(seq(|kids|, i requires 0 <= i < |kids| => LevelDigest(lv, kids[i], depth + 1)))
  }

  /** Every filled cache above the leaves, in the node and below it, holds
      the item of its subtree as `LevelDigest` gives it. */
  ghost predicate Cached<T>(lv: Levels<T>, n: MerkleNode.Node<T>, depth: nat)
    requires |lv.empties| == lv.cfg.height + 1
    decreases n
  {
    && (depth < lv.cfg.height && n.item.Some? ==>
          n.item.value == LevelDigest(lv, MerkleNode.Abs(lv.cfg, n, depth), depth))
    && forall i | 0 <= i < |n.children| && n.children[i].Some? :: Cached(lv, n.children[i].value, depth + 1)
  }

  /** A fresh node: a stale cache and every child slot absent. It holds
      nothing, has the canonical shape and no filled cache. */
  function NewNode<T>(lv: Levels<T>, depth: nat): (n: MerkleNode.Node<T>)
    requires lv.cfg.Wf() && depth <= lv.cfg.height
    ensures n.item.None? && |n.children| == lv.cfg.arity
    ensures forall i | 0 <= i < |n.children| :: n.children[i].None?
    ensures Strip(lv.cfg, n, depth) == n && Shaped(lv.cfg, n, depth)
    ensures MerkleNode.Abs(lv.cfg, n, depth) == Empty
    ensures |lv.empties| == lv.cfg.height + 1 ==> Cached(lv, n, depth)
  {
    var n := MerkleNode.NewNode(lv.cfg);
    MerkleNode.NewNodeEmpty(lv.cfg, depth);
    assert Strip(lv.cfg, n, depth) == n;
    n
  }

  /** Stores `v` at `position` below a node at `height`, exactly as the
      canonical node does: a leaf overwrites its item; a node above the
      leaves descends. */
  function Insert<T>(lv: Levels<T>, n: MerkleNode.Node<T>, height: nat, position: nat, v: T): (r: MerkleNode.Node<T>)
    requires Shaped(lv.cfg, n, height) && position < lv.cfg.Cap(height)
    ensures Strip(lv.cfg, r, height) == MerkleNode.Insert(lv.cfg, Strip(lv.cfg, n, height), height, position, v)
    ensures Shaped(lv.cfg, r, height)
    ensures MerkleNode.Abs(lv.cfg, r, height) == Put(lv.cfg, MerkleNode.Abs(lv.cfg, n, height), height, position, v)
    ensures r.item == if height == lv.cfg.height then Some(v) else None
    ensures height < lv.cfg.height ==>
      forall j | 0 <= j < lv.cfg.arity && j != ChildLocation(lv.cfg, height, position).0 :: r.children[j] == n.children[j]
    ensures |lv.empties| == lv.cfg.height + 1 && Cached(lv, n, height) ==> Cached(lv, r, height)
    decreases lv.cfg.height - height, 1
  {
    if height == lv.cfg.height then
      var r := MerkleNode.Node(Some(v), n.children);
      InsertedLeaf(lv, n, v);
      StripInserted(lv.cfg, n, r, height, position, v);
      r
    else
      InsertAbove(lv, n, height, position, v)
  }

  /** Insertion below a node above the leaves: the node becomes stale,
      allocates the child on the path if it is absent and stores into it,
      keeping the other children and their caches. */
  function InsertAbove<T>(lv: Levels<T>, n: MerkleNode.Node<T>, height: nat, position: nat, v: T): (r: MerkleNode.Node<T>)
    requires Shaped(lv.cfg, n, height) && height < lv.cfg.height && position < lv.cfg.Cap(height)
    ensures Strip(lv.cfg, r, height) == MerkleNode.Insert(lv.cfg, Strip(lv.cfg, n, height), height, position, v)
    ensures Shaped(lv.cfg, r, height)
    ensures MerkleNode.Abs(lv.cfg, r, height) == Put(lv.cfg, MerkleNode.Abs(lv.cfg, n, height), height, position, v)
    ensures r.item.None?
    ensures forall j | 0 <= j < lv.cfg.arity && j != ChildLocation(lv.cfg, height, position).0 :: r.children[j] == n.children[j]
    ensures |lv.empties| == lv.cfg.height + 1 && Cached(lv, n, height) ==> Cached(lv, r, height)
    decreases lv.cfg.height - height, 0
  {
    var cfg := lv.cfg;
    CapSplit(cfg, height);
    var loc := ChildLocation(cfg, height, position);
    var child := if n.children[loc.0].Some? then n.children[loc.0].value else MerkleNode.NewNode(cfg);
    ShapedChild(lv, n, height, loc.0);
    var child' := Insert(lv, child, height + 1, loc.1, v);
    InsertStep(lv, n, height, position, v, child, child');
    MerkleNode.Node(None, n.children[loc.0 := Some(child')])
  }

  /** The child in slot `i` of a node with the canonical shape, or a fresh
      node when the slot is absent, has the canonical shape, and its
      stripped form is what the stripped parent holds in that slot. */
  lemma ShapedChild<T>(lv: Levels<T>, n: MerkleNode.Node<T>, depth: nat, i: nat)
    requires Shaped(lv.cfg, n, depth) && depth < lv.cfg.height && i < lv.cfg.arity
    ensures
      var cfg := lv.cfg;
      var c := if n.children[i].Some? then n.children[i].value else MerkleNode.NewNode(cfg);
      var s := Strip(cfg, n, depth);
      var sc := if s.children[i].Some? then s.children[i].value else MerkleNode.NewNode(cfg);
      && Shaped(cfg, c, depth + 1)
      && Strip(cfg, c, depth + 1) == sc
      && (|lv.empties| == cfg.height + 1 && Cached(lv, n, depth) ==> Cached(lv, c, depth + 1))
  {
    var cfg := lv.cfg;
    var empty := NewNode(lv, depth + 1);
    MerkleNode.NewNodeEmpty(cfg, depth + 1);
    assert Strip(cfg, MerkleNode.NewNode(cfg), depth + 1) == MerkleNode.NewNode(cfg);
    if n.children[i].Some? {
      var c := n.children[i].value;
      StripAbs(cfg, c, depth + 1);
      MerkleNode.ValidWellFormed(cfg, Strip(cfg, c, depth + 1), depth + 1);
    }
  }

  /** A node that strips to what the canonical node becomes on storing
      `v` has the canonical shape and the updated content. */
  lemma StripInserted<T>(cfg: Config<T>, n: MerkleNode.Node<T>, r: MerkleNode.Node<T>, height: nat, position: nat, v: T)
    requires Shaped(cfg, n, height) && position < cfg.Cap(height)
    requires Strip(cfg, r, height) == MerkleNode.Insert(cfg, Strip(cfg, n, height), height, position, v)
    ensures Shaped(cfg, r, height)
    ensures MerkleNode.Abs(cfg, r, height) == Put(cfg, MerkleNode.Abs(cfg, n, height), height, position, v)
  {
    StripAbs(cfg, r, height);
    StripAbs(cfg, n, height);
  }

  /** Storing into a leaf is storing into its stripped form. */
  lemma InsertedLeaf<T>(lv: Levels<T>, n: MerkleNode.Node<T>, v: T)
    requires Shaped(lv.cfg, n, lv.cfg.height)
    ensures
      var cfg := lv.cfg;
      var r := MerkleNode.Node(Some(v), n.children);
      && Strip(cfg, r, cfg.height) == MerkleNode.Insert(cfg, Strip(cfg, n, cfg.height), cfg.height, 0, v)
      && (|lv.empties| == cfg.height + 1 && Cached(lv, n, cfg.height) ==> Cached(lv, r, cfg.height))
  {
    var cfg := lv.cfg;
    var r := MerkleNode.Node(Some(v), n.children);
    assert Strip(cfg, r, cfg.height).children == Strip(cfg, n, cfg.height).children;
  }

  /** Once the child on the path has stored `v`, the stale node holding it
      strips to what the canonical node becomes. */
  lemma InsertedStrip<T>(cfg: Config<T>, n: MerkleNode.Node<T>, height: nat, position: nat, v: T,
                         child: MerkleNode.Node<T>, child': MerkleNode.Node<T>)
    requires Shaped(cfg, n, height) && height < cfg.height && position < cfg.Cap(height)
    requires
      var loc := ChildLocation(cfg, height, position);
      && loc.0 < |n.children| && loc.1 < cfg.Cap(height + 1)
      && child == (if n.children[loc.0].Some? then n.children[loc.0].value else MerkleNode.NewNode(cfg))
      && Shaped(cfg, child, height + 1)
      && Strip(cfg, child', height + 1) == MerkleNode.Insert(cfg, Strip(cfg, child, height + 1), height + 1, loc.1, v)
    ensures
      var r := MerkleNode.Node(None, n.children[ChildLocation(cfg, height, position).0 := Some(child')]);
      Strip(cfg, r, height) == MerkleNode.Insert(cfg, Strip(cfg, n, height), height, position, v)
  {
    var loc := ChildLocation(cfg, height, position);
    var r := MerkleNode.Node(None, n.children[loc.0 := Some(child')]);
    ShapedChild(Levels(cfg, []), n, height, loc.0);
    var expected := MerkleNode.Insert(cfg, Strip(cfg, n, height), height, position, v);
    assert Strip(cfg, r, height).children == expected.children;
  }

  /** Once the child on the path has stored `v`, the stale node holding it
      behaves as the canonical node: it has the canonical shape and the
      updated content; and its filled caches are still right. */
  lemma InsertStep<T>(lv: Levels<T>, n: MerkleNode.Node<T>, height: nat, position: nat, v: T,
                      child: MerkleNode.Node<T>, child': MerkleNode.Node<T>)
    requires Shaped(lv.cfg, n, height) && height < lv.cfg.height && position < lv.cfg.Cap(height)
    requires
      var cfg := lv.cfg;
      var loc := ChildLocation(cfg, height, position);
      && loc.0 < |n.children| && loc.1 < cfg.Cap(height + 1)
      && child == (if n.children[loc.0].Some? then n.children[loc.0].value else MerkleNode.NewNode(cfg))
      && Shaped(cfg, child, height + 1)
      && Strip(cfg, child', height + 1) == MerkleNode.Insert(cfg, Strip(cfg, child, height + 1), height + 1, loc.1, v)
      && (|lv.empties| == cfg.height + 1 && Cached(lv, n, height) ==> Cached(lv, child', height + 1))
    ensures
      var cfg := lv.cfg;
      var r := MerkleNode.Node(None, n.children[ChildLocation(cfg, height, position).0 := Some(child')]);
      && Strip(cfg, r, height) == MerkleNode.Insert(cfg, Strip(cfg, n, height), height, position, v)
      && Shaped(cfg, r, height)
      && MerkleNode.Abs(cfg, r, height) == Put(cfg, MerkleNode.Abs(cfg, n, height), height, position, v)
      && (|lv.empties| == cfg.height + 1 && Cached(lv, n, height) ==> Cached(lv, r, height))
  {
    var cfg := lv.cfg;
    var loc := ChildLocation(cfg, height, position);
    var r := MerkleNode.Node(None, n.children[loc.0 := Some(child')]);
    InsertedStrip(cfg, n, height, position, v, child, child');
    StripInserted(cfg, n, r, height, position, v);
  }

  /** Removes and returns the item at `position`, which must be occupied,
      exactly as the canonical node does: a child left without children is
      freed, and the flag says whether any child slot is still present.
      The caches of the other children are kept. */
  method Remove<T>(lv: Levels<T>, n: MerkleNode.Node<T>, height: nat, position: nat)
    returns (r: MerkleNode.Node<T>, removed: T, hasChildren: bool)
    requires Shaped(lv.cfg, n, height) && position < lv.cfg.Cap(height)
    requires Get(lv.cfg, MerkleNode.Abs(lv.cfg, n, height), height, position).Some?
    ensures removed == Get(lv.cfg, MerkleNode.Abs(lv.cfg, n, height), height, position).value
    ensures MerkleNode.Abs(lv.cfg, r, height) == Delete(lv.cfg, MerkleNode.Abs(lv.cfg, n, height), height, position)
    ensures height < lv.cfg.height ==> Shaped(lv.cfg, r, height)
    ensures r.item.None? && |r.children| == lv.cfg.arity
    ensures hasChildren <==> exists i | 0 <= i < |r.children| :: r.children[i].Some?
    ensures hasChildren <==> MerkleNode.Abs(lv.cfg, r, height) != Empty
    ensures height < lv.cfg.height ==>
      forall j | 0 <= j < lv.cfg.arity && j != ChildLocation(lv.cfg, height, position).0 :: r.children[j] == n.children[j]
    ensures |lv.empties| == lv.cfg.height + 1 && Cached(lv, n, height) ==> Cached(lv, r, height)
    decreases lv.cfg.height - height, 1
  {
    if height == lv.cfg.height {
      RemovedLeaf(lv, n, position);
      removed := n.item.value;
      r := MerkleNode.Node(None, n.children);
      hasChildren := false;
      return;
    }
    r, removed, hasChildren := RemoveAbove(lv, n, height, position);
  }

  /** Removal below a node above the leaves: the node becomes stale, the
      child on the path removes the item and is freed if it became empty,
      and the remaining slots are scanned for a present child. */
  method RemoveAbove<T>(lv: Levels<T>, n: MerkleNode.Node<T>, height: nat, position: nat)
    returns (r: MerkleNode.Node<T>, removed: T, hasChildren: bool)
    requires Shaped(lv.cfg, n, height) && height < lv.cfg.height && position < lv.cfg.Cap(height)
    requires Get(lv.cfg, MerkleNode.Abs(lv.cfg, n, height), height, position).Some?
    ensures removed == Get(lv.cfg, MerkleNode.Abs(lv.cfg, n, height), height, position).value
    ensures MerkleNode.Abs(lv.cfg, r, height) == Delete(lv.cfg, MerkleNode.Abs(lv.cfg, n, height), height, position)
    ensures Shaped(lv.cfg, r, height)
    ensures r.item.None? && |r.children| == lv.cfg.arity
    ensures hasChildren <==> exists i | 0 <= i < |r.children| :: r.children[i].Some?
    ensures hasChildren <==> MerkleNode.Abs(lv.cfg, r, height) != Empty
    ensures forall j | 0 <= j < lv.cfg.arity && j != ChildLocation(lv.cfg, height, position).0 :: r.children[j] == n.children[j]
    ensures |lv.empties| == lv.cfg.height + 1 && Cached(lv, n, height) ==> Cached(lv, r, height)
    decreases lv.cfg.height - height, 0
  {
    var cfg := lv.cfg;
    var loc := ChildLocation(cfg, height, position);
    var childIndex, childPos := loc.0, loc.1;
    RemovePath(lv, n, height, position);
    var child := n.children[childIndex].value;
    var child', childHasChildren;
    child', removed, childHasChildren := Remove(lv, child, height + 1, childPos);
    var slot := if childHasChildren then Some(child') else None;
    RemoveStep(lv, n, height, position, child', slot);
    if |lv.empties| == cfg.height + 1 && Cached(lv, n, height) {
      StaleCached(lv, n, height, childIndex, slot);
    }
    r := MerkleNode.Node(None, n.children[childIndex := slot]);
    hasChildren := MerkleNode.AnyChild(r.children);
  }

  /** An occupied leaf holds its item in its cache and has no children;
      emptying the cache empties it. */
  lemma RemovedLeaf<T>(lv: Levels<T>, n: MerkleNode.Node<T>, position: nat)
    requires Shaped(lv.cfg, n, lv.cfg.height) && position < lv.cfg.Cap(lv.cfg.height)
    requires Get(lv.cfg, MerkleNode.Abs(lv.cfg, n, lv.cfg.height), lv.cfg.height, position).Some?
    ensures n.item.Some?
    ensures n.item.value == Get(lv.cfg, MerkleNode.Abs(lv.cfg, n, lv.cfg.height), lv.cfg.height, position).value
    ensures forall i | 0 <= i < |n.children| :: n.children[i].None?
    ensures MerkleNode.Abs(lv.cfg, MerkleNode.Node(None, n.children), lv.cfg.height)
      == Delete(lv.cfg, MerkleNode.Abs(lv.cfg, n, lv.cfg.height), lv.cfg.height, position)
  {
  }

  /** The child on the path to an occupied `position` is present, has the
      canonical shape and right caches when its parent does, and holds
      that position's item at its relative position. */
  lemma RemovePath<T>(lv: Levels<T>, n: MerkleNode.Node<T>, height: nat, position: nat)
    requires Shaped(lv.cfg, n, height) && height < lv.cfg.height && position < lv.cfg.Cap(height)
    requires Get(lv.cfg, MerkleNode.Abs(lv.cfg, n, height), height, position).Some?
    ensures
      var cfg := lv.cfg;
      var loc := ChildLocation(cfg, height, position);
      && loc.0 < |n.children| && n.children[loc.0].Some? && loc.1 < cfg.Cap(height + 1)
      && Shaped(cfg, n.children[loc.0].value, height + 1)
      && Strip(cfg, n.children[loc.0].value, height + 1) == Strip(cfg, n, height).children[loc.0].value
      && Get(cfg, MerkleNode.Abs(cfg, n.children[loc.0].value, height + 1), height + 1, loc.1)
         == Get(cfg, MerkleNode.Abs(cfg, n, height), height, position)
      && (|lv.empties| == cfg.height + 1 && Cached(lv, n, height) ==> Cached(lv, n.children[loc.0].value, height + 1))
  {
    var cfg := lv.cfg;
    var loc := ChildLocation(cfg, height, position);
    StripAbs(cfg, n, height);
    MerkleNode.PathChild(cfg, Strip(cfg, n, height), height, position);
    ShapedChild(lv, n, height, loc.0);
    StripAbs(cfg, n.children[loc.0].value, height + 1);
  }

  /** Once the child on the path has removed the item, the stale node
      holding it, or nothing if it became empty, behaves as the canonical
      node: it has the canonical shape and the content with `position`
      removed, and holds nothing exactly when no slot is present. */
  lemma RemoveStep<T>(lv: Levels<T>, n: MerkleNode.Node<T>, height: nat, position: nat,
                      child': MerkleNode.Node<T>, slot: Option<MerkleNode.Node<T>>)
    requires Shaped(lv.cfg, n, height) && height < lv.cfg.height && position < lv.cfg.Cap(height)
    requires Get(lv.cfg, MerkleNode.Abs(lv.cfg, n, height), height, position).Some?
    requires
      var cfg := lv.cfg;
      var loc := ChildLocation(cfg, height, position);
      && loc.0 < |n.children| && n.children[loc.0].Some? && loc.1 < cfg.Cap(height + 1)
      && Shaped(cfg, n.children[loc.0].value, height + 1)
      && Strip(cfg, n.children[loc.0].value, height + 1) == Strip(cfg, n, height).children[loc.0].value
      && MerkleNode.Abs(cfg, child', height + 1) == Delete(cfg, MerkleNode.Abs(cfg, n.children[loc.0].value, height + 1), height + 1, loc.1)
      && (height + 1 < cfg.height ==> Shaped(cfg, child', height + 1))
      && slot == (if MerkleNode.Abs(cfg, child', height + 1) != Empty then Some(child') else None)
    ensures
      var cfg := lv.cfg;
      var r := MerkleNode.Node(None, n.children[ChildLocation(cfg, height, position).0 := slot]);
      && Shaped(cfg, r, height)
      && MerkleNode.Abs(cfg, r, height) == Delete(cfg, MerkleNode.Abs(cfg, n, height), height, position)
      && (MerkleNode.Abs(cfg, r, height) == Empty <==> forall i | 0 <= i < |r.children| :: r.children[i].None?)
  {
    var cfg := lv.cfg;
    var loc := ChildLocation(cfg, height, position);
    var r := MerkleNode.Node(None, n.children[loc.0 := slot]);
    var s := Strip(cfg, n, height);
    var slotS := if slot.Some? then Some(Strip(cfg, child', height + 1)) else None;
    StripAbs(cfg, n, height);
    StripAbs(cfg, child', height + 1);
    StripAbs(cfg, n.children[loc.0].value, height + 1);
    MerkleNode.RemovedBelow(cfg, s, height, position, Strip(cfg, child', height + 1), slotS);
    assert Strip(cfg, r, height) == MerkleNode.Node(None, s.children[loc.0 := slotS]);
    StripAbs(cfg, r, height);
    MerkleNode.ValidWellFormed(cfg, Strip(cfg, r, height), height);
  }

  /** A stale node keeps right caches when one slot is replaced by a node
      with right caches, or emptied. */
  lemma StaleCached<T>(lv: Levels<T>, n: MerkleNode.Node<T>, depth: nat, i: nat, slot: Option<MerkleNode.Node<T>>)
    requires |lv.empties| == lv.cfg.height + 1 && Cached(lv, n, depth) && i < |n.children|
    requires slot.Some? ==> Cached(lv, slot.value, depth + 1)
    ensures Cached(lv, MerkleNode.Node(None, n.children[i := slot]), depth)
  {
  }

  /** A node above the leaves whose children were swapped for ones with
      the same storage, whatever their caches and its own, has the same
      storage, hence the same shape and content. */
  lemma SameStrip<T>(cfg: Config<T>, n: MerkleNode.Node<T>, item: Option<T>, children: seq<Option<MerkleNode.Node<T>>>, depth: nat)
    requires depth < cfg.height && |children| == |n.children|
    requires forall j | 0 <= j < |children| :: children[j].Some? == n.children[j].Some?
    requires forall j | 0 <= j < |children| && children[j].Some? ::
      Strip(cfg, children[j].value, depth + 1) == Strip(cfg, n.children[j].value, depth + 1)
    ensures Strip(cfg, MerkleNode.Node(item, children), depth) == Strip(cfg, n, depth)
    ensures MerkleNode.Abs(cfg, MerkleNode.Node(item, children), depth) == MerkleNode.Abs(cfg, n, depth)
    ensures Shaped(cfg, n, depth) ==> Shaped(cfg, MerkleNode.Node(item, children), depth)
  {
    var m := MerkleNode.Node(item, children);
    assert Strip(cfg, m, depth).children == Strip(cfg, n, depth).children;
    StripAbs(cfg, m, depth);
    StripAbs(cfg, n, depth);
  }

  /** The item `item(height)` computes, as written: a filled cache as it
      is; for a stale node, the empty value of `height` when no child is
      present, and otherwise the aggregate of the children's items, each
      asked for at the same `height`, with the empty value of
      `height + 1` in absent slots. */
  function AsWritten<T>(lv: Levels<T>, n: MerkleNode.Node<T>, height: nat): T
    requires n.item.None? ==> height + 1 < |lv.empties|
    decreases n
  {
    if n.item.Some? then n.item.value
    else if forall j | 0 <= j < |n.children| :: n.children[j].None? then lv.empties[height]
    else lv.cfg.agg.aggregate(seq(|n.children|, j requires 0 <= j < |n.children| =>
      if n.children[j].Some? then AsWritten(lv, n.children[j].value, height) else lv.empties[height + 1]))
  }

  /** Reads the item as `item(height)` is written, recomputing a stale
      cache from the children's items, all asked for at the same `height`,
      and storing the recomputed items; the storage is unchanged. */
  method ItemAsWritten<T>(lv: Levels<T>, n: MerkleNode.Node<T>, height: nat, ghost depth: nat)
    returns (r: T, n': MerkleNode.Node<T>)
    requires Shaped(lv.cfg, n, depth) && (depth < lv.cfg.height || n.item.Some?)
    requires n.item.None? ==> height + 1 < |lv.empties|
    ensures r == AsWritten(lv, n, height)
    ensures n'.item == Some(r)
    ensures Strip(lv.cfg, n', depth) == Strip(lv.cfg, n, depth)
    ensures Shaped(lv.cfg, n', depth) && MerkleNode.Abs(lv.cfg, n', depth) == MerkleNode.Abs(lv.cfg, n, depth)
    ensures n.item.Some? ==> n' == n
    decreases n, 1
  {
    if n.item.Some? {
      return n.item.value, n;
    }
    var cfg := lv.cfg;
    var empty := lv.empties[height + 1];
    var itemRefs := seq(cfg.arity, _ => empty);
    var childItems, children := ChildItemsAsWritten(lv, n, height, depth);
    var hasChildren := false;
    var i := 0;
    while i < cfg.arity
      invariant 0 <= i <= cfg.arity && |itemRefs| == cfg.arity
      invariant forall j | 0 <= j < i ::
        itemRefs[j] == if n.children[j].Some? then AsWritten(lv, n.children[j].value, height) else empty
      invariant forall j | i <= j < cfg.arity :: itemRefs[j] == empty
      invariant hasChildren <==> exists j | 0 <= j < i :: childItems[j].Some?
    {
      if childItems[i].Some? {
        itemRefs := itemRefs[i := childItems[i].value];
        hasChildren := true;
      }
      i := i + 1;
    }
    if hasChildren {
      r := cfg.agg.aggregate(itemRefs);
      assert itemRefs == seq(|n.children|, j requires 0 <= j < |n.children| =>
        if n.children[j].Some? then AsWritten(lv, n.children[j].value, height) else lv.empties[height + 1]);
    } else {
      r := lv.empties[height];
      assert forall j | 0 <= j < |n.children| :: n.children[j].None?;
    }
    SameStrip(cfg, n, Some(r), children, depth);
    n' := MerkleNode.Node(Some(r), children);
  }

  /** The items of the children of a node, asked for at the same `height`,
      `None` in absent slots, computed slot by slot from the left; the
      children come back with their recomputed caches. */
  method ChildItemsAsWritten<T>(lv: Levels<T>, n: MerkleNode.Node<T>, height: nat, ghost depth: nat)
    returns (childItems: seq<Option<T>>, children: seq<Option<MerkleNode.Node<T>>>)
    requires Shaped(lv.cfg, n, depth) && depth < lv.cfg.height
    requires n.item.None? && height + 1 < |lv.empties|
    ensures |childItems| == lv.cfg.arity && |children| == lv.cfg.arity
    ensures forall j | 0 <= j < lv.cfg.arity :: children[j].Some? == n.children[j].Some? == childItems[j].Some?
    ensures forall j | 0 <= j < lv.cfg.arity && children[j].Some? ::
      && Strip(lv.cfg, children[j].value, depth + 1) == Strip(lv.cfg, n.children[j].value, depth + 1)
      && childItems[j].value == AsWritten(lv, n.children[j].value, height)
    decreases n, 0
  {
    var cfg := lv.cfg;
    childItems := [];
    children := n.children;
    var i := 0;
    while i < cfg.arity
      invariant 0 <= i <= cfg.arity && |childItems| == i && |children| == cfg.arity
      invariant forall j | i <= j < cfg.arity :: children[j] == n.children[j]
      invariant forall j | 0 <= j < i :: children[j].Some? == n.children[j].Some? == childItems[j].Some?
      invariant forall j | 0 <= j < i && children[j].Some? ::
        && Strip(cfg, children[j].value, depth + 1) == Strip(cfg, n.children[j].value, depth + 1)
        && childItems[j].value == AsWritten(lv, n.children[j].value, height)
    {
      if children[i].Some? {
        var c := n.children[i].value;
        PresentChild(lv, n, depth, i);
        var ci, c' := ItemAsWritten(lv, c, height, depth + 1);
        children := children[i := Some(c')];
        childItems := childItems + [Some(ci)];
      } else {
        childItems := childItems + [None];
      }
      i := i + 1;
    }
  }

  /** A present child of a node with the canonical shape has that shape
      too, and holds something: a leaf child has a filled cache. */
  lemma PresentChild<T>(lv: Levels<T>, n: MerkleNode.Node<T>, depth: nat, i: nat)
    requires Shaped(lv.cfg, n, depth) && depth < lv.cfg.height && i < |n.children| && n.children[i].Some?
    ensures Shaped(lv.cfg, n.children[i].value, depth + 1)
    ensures depth + 1 < lv.cfg.height || n.children[i].value.item.Some?
    ensures MerkleNode.Abs(lv.cfg, n.children[i].value, depth + 1) != Empty
    ensures |lv.empties| == lv.cfg.height + 1 && Cached(lv, n, depth) ==> Cached(lv, n.children[i].value, depth + 1)
  {
    ShapedChild(lv, n, depth, i);
    StripAbs(lv.cfg, n.children[i].value, depth + 1);
  }

  /** Reads the item with each child asked for at its own height, the
      reading the variant's per-height empty values call for: a filled
      cache as it is; for a stale node, the empty value of its height when
      no child is present, and otherwise the aggregate of the children's
      items with the empty value of the height below in absent slots. The
      recomputed items are stored and the storage is unchanged. */
  method ItemAt<T>(lv: Levels<T>, n: MerkleNode.Node<T>, depth: nat) returns (r: T, n': MerkleNode.Node<T>)
    requires |lv.empties| == lv.cfg.height + 1
    requires Shaped(lv.cfg, n, depth) && Cached(lv, n, depth) && (depth < lv.cfg.height || n.item.Some?)
    ensures r == LevelDigest(lv, MerkleNode.Abs(lv.cfg, n, depth), depth)
    ensures n'.item == Some(r)
    ensures Strip(lv.cfg, n', depth) == Strip(lv.cfg, n, depth)
    ensures Shaped(lv.cfg, n', depth) && MerkleNode.Abs(lv.cfg, n', depth) == MerkleNode.Abs(lv.cfg, n, depth)
    ensures Cached(lv, n', depth)
    ensures n.item.Some? ==> n' == n
    decreases n, 2
  {
    if n.item.Some? {
      return n.item.value, n;
    }
    var cfg := lv.cfg;
    ghost var kids := MerkleNode.Kids(cfg, n, depth);
    var empty := lv.empties[depth + 1];
    var itemRefs := seq(cfg.arity, _ => empty);
    var childItems, children := ChildItemsAt(lv, n, depth);
    var hasChildren := false;
    var i := 0;
    while i < cfg.arity
      invariant 0 <= i <= cfg.arity && |itemRefs| == cfg.arity
      invariant forall j | 0 <= j < i :: itemRefs[j] == LevelDigest(lv, kids[j], depth + 1)
      invariant forall j | i <= j < cfg.arity :: itemRefs[j] == empty
      invariant hasChildren <==> exists j | 0 <= j < i :: childItems[j].Some?
    {
      if childItems[i].Some? {
        itemRefs := itemRefs[i := childItems[i].value];
        hasChildren := true;
      }
      i := i + 1;
    }
    ItemsAbs(lv, n, depth);
    if hasChildren {
      r := cfg.agg.aggregate(itemRefs);
      assert itemRefs == seq(|kids|, j requires 0 <= j < |kids| => LevelDigest(lv, kids[j], depth + 1));
    } else {
      r := lv.empties[depth];
    }
    SameStrip(cfg, n, Some(r), children, depth);
    n' := MerkleNode.Node(Some(r), children);
  }

  /** A stale node above the leaves with the canonical shape holds nothing
      exactly when no child is present, and otherwise holds its slots. */
  lemma ItemsAbs<T>(lv: Levels<T>, n: MerkleNode.Node<T>, depth: nat)
    requires Shaped(lv.cfg, n, depth) && depth < lv.cfg.height
    ensures |n.children| == lv.cfg.arity
    ensures MerkleNode.Abs(lv.cfg, n, depth) == Empty <==> forall j | 0 <= j < |n.children| :: n.children[j].None?
    ensures MerkleNode.Abs(lv.cfg, n, depth) != Empty ==>
      MerkleNode.Abs(lv.cfg, n, depth) == Inner(MerkleNode.Kids(lv.cfg, n, depth))
  {
    forall j | 0 <= j < |n.children| && n.children[j].Some?
      ensures MerkleNode.Abs(lv.cfg, n.children[j].value, depth + 1) != Empty
    {
      PresentChild(lv, n, depth, j);
    }
    MerkleNode.SlotsAbs(lv.cfg, n, depth);
  }

  /** The items of the children of a node, each asked for at its own
      height, `None` in absent slots, computed slot by slot from the left;
      the children come back with their recomputed caches. */
  method ChildItemsAt<T>(lv: Levels<T>, n: MerkleNode.Node<T>, depth: nat)
    returns (childItems: seq<Option<T>>, children: seq<Option<MerkleNode.Node<T>>>)
    requires |lv.empties| == lv.cfg.height + 1
    requires Shaped(lv.cfg, n, depth) && Cached(lv, n, depth) && depth < lv.cfg.height
    ensures |childItems| == lv.cfg.arity && |children| == lv.cfg.arity
    ensures forall j | 0 <= j < lv.cfg.arity :: children[j].Some? == n.children[j].Some? == childItems[j].Some?
    ensures forall j | 0 <= j < lv.cfg.arity && children[j].Some? ::
      && Strip(lv.cfg, children[j].value, depth + 1) == Strip(lv.cfg, n.children[j].value, depth + 1)
      && Cached(lv, children[j].value, depth + 1)
      && childItems[j].value == LevelDigest(lv, MerkleNode.Kids(lv.cfg, n, depth)[j], depth + 1)
    decreases n, 1
  {
    var cfg := lv.cfg;
    ghost var kids := MerkleNode.Kids(cfg, n, depth);
    ItemsAbs(lv, n, depth);
    childItems := [];
    children := n.children;
    var i := 0;
    while i < cfg.arity
      invariant 0 <= i <= cfg.arity && |childItems| == i && |children| == cfg.arity
      invariant forall j | i <= j < cfg.arity :: children[j] == n.children[j]
      invariant forall j | 0 <= j < i :: children[j].Some? == n.children[j].Some? == childItems[j].Some?
      invariant forall j | 0 <= j < i && children[j].Some? ::
        Recomputed(lv, children[j].value, n.children[j].value, childItems[j].value, kids[j], depth + 1)
    {
      var ci, c' := ChildItemAt(lv, n, depth, i);
      children := children[i := c'];
      childItems := childItems + [ci];
      i := i + 1;
    }
  }

  /** The item of the child in slot `i`, asked for at its own height, and
      the child with its recomputed cache; `None` for an absent slot. */
  method ChildItemAt<T>(lv: Levels<T>, n: MerkleNode.Node<T>, depth: nat, i: nat)
    returns (item: Option<T>, child: Option<MerkleNode.Node<T>>)
    requires |lv.empties| == lv.cfg.height + 1
    requires Shaped(lv.cfg, n, depth) && Cached(lv, n, depth) && depth < lv.cfg.height && i < |n.children|
    ensures item.Some? == child.Some? == n.children[i].Some?
    ensures child.Some? ==>
      Recomputed(lv, child.value, n.children[i].value, item.value, MerkleNode.Kids(lv.cfg, n, depth)[i], depth + 1)
    decreases n, 0
  {
    if n.children[i].Some? {
      PresentChild(lv, n, depth, i);
      var ci, c' := ItemAt(lv, n.children[i].value, depth + 1);
      return Some(ci), Some(c');
    }
    return None, None;
  }

  /** A child recomputed at `depth`: the same storage as `c`, every cache
      right, and `item` the item its content `t` calls for. */
  ghost predicate Recomputed<T>(lv: Levels<T>, c': MerkleNode.Node<T>, c: MerkleNode.Node<T>, item: T, t: Subtree<T>, depth: nat)
    requires |lv.empties| == lv.cfg.height + 1
  {
    && Strip(lv.cfg, c', depth) == Strip(lv.cfg, c, depth)
    && Cached(lv, c', depth)
    && depth <= lv.cfg.height
    && item == LevelDigest(lv, t, depth)
  }

  /** Asking the children at the same height is harmless one level up:
      when every present child's cache is filled and right, the item as
      written is the item the per-height empty values call for. */
  lemma AgreesWhenChildrenCached<T>(lv: Levels<T>, n: MerkleNode.Node<T>, depth: nat)
    requires |lv.empties| == lv.cfg.height + 1 && depth < lv.cfg.height
    requires Shaped(lv.cfg, n, depth) && Cached(lv, n, depth)
    requires forall j | 0 <= j < |n.children| && n.children[j].Some? :: n.children[j].value.item.Some?
    ensures AsWritten(lv, n, depth) == LevelDigest(lv, MerkleNode.Abs(lv.cfg, n, depth), depth)
  {
    if n.item.None? {
      var kids := MerkleNode.Kids(lv.cfg, n, depth);
      ItemsAbs(lv, n, depth);
      forall j | 0 <= j < |kids|
        ensures LevelDigest(lv, kids[j], depth + 1)
          == if n.children[j].Some? then AsWritten(lv, n.children[j].value, depth) else lv.empties[depth + 1]
      {
        if n.children[j].Some? {
          PresentChild(lv, n, depth, j);
        }
      }
      SameChildItems(lv, n, depth, kids);
    }
  }

  /** Slot by slot equal items make equal rows: the row as written, with
      the empty value of the height below in absent slots, and the row of
      the slots' per-height items. */
  lemma SameChildItems<T>(lv: Levels<T>, n: MerkleNode.Node<T>, depth: nat, kids: seq<Subtree<T>>)
    requires |lv.empties| == lv.cfg.height + 1 && depth < lv.cfg.height && |kids| == |n.children|
    requires forall j | 0 <= j < |kids| ::
      LevelDigest(lv, kids[j], depth + 1)
        == if n.children[j].Some? then AsWritten(lv, n.children[j].value, depth) else lv.empties[depth + 1]
    ensures seq(|n.children|, j requires 0 <= j < |n.children| =>
              if n.children[j].Some? then AsWritten(lv, n.children[j].value, depth) else lv.empties[depth + 1])
         == seq(|kids|, j requires 0 <= j < |kids| => LevelDigest(lv, kids[j], depth + 1))
  {
  }

  /** The parameters of the counterexample: height 2, arity 2, the empty
      values 0, 10 and 20 by height, and the sum of two numbers as the
      aggregate. */
  function QuirkLevels(): (lv: Levels<int>)
    ensures lv.cfg.Wf() && |lv.empties| == lv.cfg.height + 1
  {
    Levels(Config(2, 2, Aggregator(0, items => if |items| == 2 then items[0] + items[1] else 0)), [0, 10, 20])
  }

  /** The node at depth 1 of the counterexample: the leaf 5 in slot 0. */
  function QuirkMid(): MerkleNode.Node<int>
  {
    MerkleNode.Node(None, [Some(MerkleNode.Node(Some(5), [None, None])), None])
  }

  /** Storing through an absent slot stores into a fresh child put in
      that slot and leaves the node stale. */
  lemma InsertThroughAbsent<T>(lv: Levels<T>, n: MerkleNode.Node<T>, height: nat, position: nat, v: T)
    requires Shaped(lv.cfg, n, height) && height < lv.cfg.height && position < lv.cfg.Cap(height)
    requires var i := ChildLocation(lv.cfg, height, position).0; i < |n.children| && n.children[i].None?
    ensures
      var loc := ChildLocation(lv.cfg, height, position);
      var child := NewNode(lv, height + 1);
      Insert(lv, n, height, position, v)
        == MerkleNode.Node(None, n.children[loc.0 := Some(Insert(lv, child, height + 1, loc.1, v))])
  {
    CapSplit(lv.cfg, height);
    assert NewNode(lv, height + 1) == MerkleNode.NewNode(lv.cfg);
  }

  /** Storing 5 at position 0 of an empty tree of `QuirkLevels` leaves both
      nodes on the path stale. */
  lemma QuirkInsert(lv: Levels<int>)
    requires lv == QuirkLevels()
    ensures Insert(lv, NewNode(lv, 0), 0, 0, 5) == MerkleNode.Node(None, [Some(QuirkMid()), None])
  {
    assert ChildLocation(lv.cfg, 0, 0) == (0, 0);
    var empty := NewNode(lv, 0);
    assert empty.children == [None, None];
    InsertThroughAbsent(lv, empty, 0, 0, 5);
    QuirkMidInsert(lv);
    FirstOfTwo(empty.children, Insert(lv, NewNode(lv, 1), 1, 0, 5));
  }

  /** Filling the first of two absent slots. */
  lemma FirstOfTwo<X>(slots: seq<Option<X>>, x: X)
    requires slots == [None, None]
    ensures slots[0 := Some(x)] == [Some(x), None]
  {
  }

  /** The node at depth 1 of the counterexample, as storing creates it. */
  lemma QuirkMidInsert(lv: Levels<int>)
    requires lv == QuirkLevels()
    ensures Insert(lv, NewNode(lv, 1), 1, 0, 5) == QuirkMid()
  {
    assert ChildLocation(lv.cfg, 1, 0) == (0, 0);
    var empty := NewNode(lv, 1);
    assert empty.children == [None, None];
    InsertThroughAbsent(lv, empty, 1, 0, 5);
    QuirkLeafInsert();
  }

  /** The leaf of the counterexample, as storing creates it. */
  lemma QuirkLeafInsert()
    ensures Insert(QuirkLevels(), NewNode(QuirkLevels(), 2), 2, 0, 5) == MerkleNode.Node(Some(5), [None, None])
  {
    assert NewNode(QuirkLevels(), 2).children == [None, None];
  }

  /** The content of the counterexample and its item as the per-height
      empty values call for it: 5 + 20 below the root, plus 10. */
  lemma QuirkDigest()
    ensures MerkleNode.Abs(QuirkLevels().cfg, MerkleNode.Node(None, [Some(QuirkMid()), None]), 0)
      == Inner([Inner([Leaf(5), Empty]), Empty])
    ensures LevelDigest(QuirkLevels(), Inner([Inner([Leaf(5), Empty]), Empty]), 0) == 35
  {
    var lv := QuirkLevels();
    var cfg := lv.cfg;
    assert MerkleNode.Abs(cfg, MerkleNode.Node(Some(5), [None, None]), 2) == Leaf(5);
    var kids := MerkleNode.Kids(cfg, QuirkMid(), 1);
    assert kids[0] == Leaf(5) && kids[1] == Empty;
    assert kids == [Leaf(5), Empty];
    assert !AllEmpty(kids) by { assert !kids[0].Empty?; }
    assert MerkleNode.Abs(cfg, QuirkMid(), 1) == Inner([Leaf(5), Empty]);
    var top := MerkleNode.Kids(cfg, MerkleNode.Node(None, [Some(QuirkMid()), None]), 0);
    assert top[0] == Inner([Leaf(5), Empty]) && top[1] == Empty;
    assert top == [Inner([Leaf(5), Empty]), Empty];
    assert !AllEmpty(top) by { assert !top[0].Empty?; }
    assert LevelDigest(lv, Inner([Leaf(5), Empty]), 1) == 25;
  }

  /** Asking the children at the same height goes wrong two levels up: in
      the tree of height 2 holding only 5 at position 0, freshly stored so
      that both nodes on its path are stale, the node below the root fills
      its absent slot with the empty value of height 1 (10) instead of
      that of height 2 (20), so the root item is 25 instead of 35. */
  lemma SameHeightQuirk()
    ensures
      var lv := QuirkLevels();
      var n := Insert(lv, NewNode(lv, 0), 0, 0, 5);
      && Shaped(lv.cfg, n, 0) && Cached(lv, n, 0) && n.item.None?
      && AsWritten(lv, n, 0) == 25
      && LevelDigest(lv, MerkleNode.Abs(lv.cfg, n, 0), 0) == 35
  {
    var lv := QuirkLevels();
    var n := Insert(lv, NewNode(lv, 0), 0, 0, 5);
    QuirkInsert(lv);
    QuirkDigest();
    QuirkAsWritten();
    assert n == MerkleNode.Node(None, [Some(QuirkMid()), None]);
  }

  /** The item of the counterexample as `item(height)` computes it. */
  lemma QuirkAsWritten()
    ensures AsWritten(QuirkLevels(), MerkleNode.Node(None, [Some(QuirkMid()), None]), 0) == 25
  {
    var lv := QuirkLevels();
    assert AsWritten(lv, MerkleNode.Node(Some(5), [None, None]), 0) == 5;
    assert AsWritten(lv, QuirkMid(), 0) == 15;
  }
}

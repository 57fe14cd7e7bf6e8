/** A node of the sparse tree: a lazily recomputed cached item and `A`
    optional children, each owned by its parent alone. A node at depth `H`
    is a leaf whose cache holds the stored item. Because every child has a
    single owner, a node is modelled as a value: an update in place becomes
    a function or method returning the updated node.
 */
module MerkleNode {
  import opened Merkle
  import opened Sparse

  /** The cached item (`None` when stale) and the `A` child slots. */
  datatype Node<T> = Node(item: Option<T>, children: seq<Option<Node<T>>>)

  /** A fresh node: a stale cache and every child slot absent. */
  function NewNode<T>(cfg: Config<T>): (n: Node<T>)
    ensures n.item.None? && |n.children| == cfg.arity
    ensures forall i | 0 <= i < |n.children| :: n.children[i].None?
  {
    Node(None, seq(cfg.arity, _ => None))
  }

  /** The content of a node at `depth`: a leaf holds its cache, and a node
      above the leaves holds its slots, or nothing when every slot is
      empty. */
  function Abs<T>(cfg: Config<T>, n: Node<T>, depth: nat): Subtree<T>
    decreases n, 1
  {
    if depth >= cfg.height then
      if n.item.Some? then Leaf(n.item.value) else Empty
    else
      var kids := Kids(cfg, n, depth);
      if AllEmpty(kids) then Empty else Inner(kids)
  }

  /** The contents of the slots of a node at `depth`. */
  function Kids<T>(cfg: Config<T>, n: Node<T>, depth: nat): (kids: seq<Subtree<T>>)
    ensures |kids| == |n.children|
    decreases n, 0
  {
    seq(|n.children|, i requires 0 <= i < |n.children| =>
      if n.children[i].Some? then Abs(cfg, n.children[i].value, depth + 1) else Empty)
  }

  /** The node invariant: `A` slots; a leaf has no children; every
      present child is valid and holds something (a child
      that became empty is freed); and a cache that is not stale equals the
      aggregate of the subtree. */
  ghost predicate Valid<T>(cfg: Config<T>, n: Node<T>, depth: nat)
    decreases n
  {
    && cfg.Wf() && depth <= cfg.height
    && |n.children| == cfg.arity
    && (depth == cfg.height ==> forall i | 0 <= i < |n.children| :: n.children[i].None?)
    && (forall i | 0 <= i < |n.children| && n.children[i].Some? ::
          Valid(cfg, n.children[i].value, depth + 1) && Abs(cfg, n.children[i].value, depth + 1) != Empty)
    && WellFormed(cfg, Abs(cfg, n, depth), depth)
    && (n.item.Some? ==> n.item.value == Digest(cfg, Abs(cfg, n, depth)))
  }

  /** A fresh node is valid and holds nothing, at any depth. */
  lemma NewNodeEmpty<T>(cfg: Config<T>, depth: nat)
    requires cfg.Wf() && depth <= cfg.height
    ensures Abs(cfg, NewNode(cfg), depth) == Empty
    ensures Valid(cfg, NewNode(cfg), depth)
  {
    if depth < cfg.height {
      assert AllEmpty(Kids(cfg, NewNode(cfg), depth));
    }
  }

  /** The slots of the content of a node above the leaves are the contents
      of its slots; the content is empty exactly when no child is present. */
  lemma SlotsAbs<T>(cfg: Config<T>, n: Node<T>, depth: nat)
    requires depth < cfg.height && |n.children| == cfg.arity
    requires forall i | 0 <= i < |n.children| && n.children[i].Some? ::
      Abs(cfg, n.children[i].value, depth + 1) != Empty
    ensures Slots(cfg, Abs(cfg, n, depth)) == Kids(cfg, n, depth)
    ensures Abs(cfg, n, depth) == Empty <==> forall i | 0 <= i < |n.children| :: n.children[i].None?
  {
    var kids := Kids(cfg, n, depth);
    if AllEmpty(kids) {
      assert Slots(cfg, Abs(cfg, n, depth)) == kids;
      forall i | 0 <= i < |n.children|
        ensures n.children[i].None?
      {
        assert kids[i].Empty?;
      }
    } else {
      var i :| 0 <= i < |kids| && !kids[i].Empty?;
      assert n.children[i].Some?;
    }
  }

  /** Replacing slot `i` of a valid node above the leaves by a valid child
      that holds something, or by nothing, and marking the node stale gives
      a valid node whose slot contents are the old ones with slot `i`
      replaced. */
  lemma ReplaceSlot<T>(cfg: Config<T>, n: Node<T>, depth: nat, i: nat, c: Option<Node<T>>)
    requires Valid(cfg, n, depth) && depth < cfg.height && i < cfg.arity
    requires c.Some? ==> Valid(cfg, c.value, depth + 1) && Abs(cfg, c.value, depth + 1) != Empty
    ensures
      var m := Node(None, n.children[i := c]);
      var kids := Kids(cfg, n, depth)[i := if c.Some? then Abs(cfg, c.value, depth + 1) else Empty];
      && Kids(cfg, m, depth) == kids
      && Abs(cfg, m, depth) == (if AllEmpty(kids) then Empty else Inner(kids))
      && Valid(cfg, m, depth)
  {
    var m := Node(None, n.children[i := c]);
    var kids := Kids(cfg, n, depth)[i := if c.Some? then Abs(cfg, c.value, depth + 1) else Empty];
    assert Kids(cfg, m, depth) == kids;
    forall j | 0 <= j < |kids|
      ensures WellFormed(cfg, kids[j], depth + 1)
    {
      if j != i && n.children[j].Some? {
        ValidWellFormed(cfg, n.children[j].value, depth + 1);
      } else if j == i && c.Some? {
        ValidWellFormed(cfg, c.value, depth + 1);
      }
    }
  }

  /** A valid node's content is well-formed. */
  lemma ValidWellFormed<T>(cfg: Config<T>, n: Node<T>, depth: nat)
    requires Valid(cfg, n, depth)
    ensures WellFormed(cfg, Abs(cfg, n, depth), depth)
  {
  }

  /** A stale node whose children were swapped for valid ones with the same
      contents keeps its content and is valid again once its cache holds
      that content's aggregate. */
  lemma SameKids<T>(cfg: Config<T>, n: Node<T>, children: seq<Option<Node<T>>>, depth: nat, item: Option<T>)
    requires Valid(cfg, n, depth) && depth < cfg.height && |children| == cfg.arity
    requires forall j | 0 <= j < cfg.arity :: children[j].Some? == n.children[j].Some?
    requires forall j | 0 <= j < cfg.arity && children[j].Some? ::
      Valid(cfg, children[j].value, depth + 1) && Abs(cfg, children[j].value, depth + 1) == Kids(cfg, n, depth)[j]
    requires item.Some? ==> item.value == Digest(cfg, Abs(cfg, n, depth))
    ensures Kids(cfg, Node(item, children), depth) == Kids(cfg, n, depth)
    ensures Abs(cfg, Node(item, children), depth) == Abs(cfg, n, depth)
    ensures Valid(cfg, Node(item, children), depth)
  {
    assert Kids(cfg, Node(item, children), depth) == Kids(cfg, n, depth);
  }

  /** Reads the item, recomputing a stale cache: first each present child's
      item, then the aggregate of those with the empty value in absent
      slots, or the empty value itself when no child is present. The
      recomputed items are stored in the returned node; a cache that was
      filled is returned unchanged. */
  method Item<T>(cfg: Config<T>, n: Node<T>, ghost depth: nat) returns (r: T, n': Node<T>)
    requires Valid(cfg, n, depth) && (depth < cfg.height || n.item.Some?)
    ensures r == Digest(cfg, Abs(cfg, n, depth))
    ensures Valid(cfg, n', depth) && Abs(cfg, n', depth) == Abs(cfg, n, depth)
    ensures n'.item == Some(r)
    ensures |n'.children| == |n.children|
    ensures forall i | 0 <= i < |n.children| :: n'.children[i].Some? == n.children[i].Some?
    ensures n.item.Some? ==> n' == n
    decreases n, 1
  {
    if n.item.Some? {
      return n.item.value, n;
    }
    ghost var kids := Kids(cfg, n, depth);
    var childItems, children := ChildItems(cfg, n, depth);
    // Each present child's item replaces the empty value in its slot.
    var itemRefs := seq(cfg.arity, _ => cfg.agg.empty);
    var hasChildren := false;
    var i := 0;
    while i < cfg.arity
      invariant 0 <= i <= cfg.arity && |itemRefs| == cfg.arity
      invariant forall j | 0 <= j < i :: itemRefs[j] == Digest(cfg, kids[j])
      invariant forall j | i <= j < cfg.arity :: itemRefs[j] == cfg.agg.empty
      invariant hasChildren <==> exists j | 0 <= j < i :: childItems[j].Some?
    {
      if childItems[i].Some? {
        itemRefs := itemRefs[i := childItems[i].value];
        hasChildren := true;
      }
      i := i + 1;
    }
    SlotsAbs(cfg, n, depth);
    if hasChildren {
      r := cfg.Combine(itemRefs);
      assert itemRefs == seq(|kids|, j requires 0 <= j < |kids| => Digest(cfg, kids[j]));
    } else {
      r := cfg.agg.empty;
    }
    SameKids(cfg, n, children, depth, Some(r));
    n' := Node(Some(r), children);
  }

  /** The items of the children of a node, `None` in absent slots, computed
      slot by slot from the left; the children come back with their
      recomputed caches. */
  method ChildItems<T>(cfg: Config<T>, n: Node<T>, ghost depth: nat)
    returns (childItems: seq<Option<T>>, children: seq<Option<Node<T>>>)
    requires Valid(cfg, n, depth) && depth < cfg.height
    ensures |childItems| == cfg.arity && |children| == cfg.arity
    ensures forall j | 0 <= j < cfg.arity :: children[j].Some? == n.children[j].Some? == childItems[j].Some?
    ensures forall j | 0 <= j < cfg.arity && children[j].Some? ::
      && Valid(cfg, children[j].value, depth + 1)
      && Abs(cfg, children[j].value, depth + 1) == Kids(cfg, n, depth)[j]
      && childItems[j].value == Digest(cfg, Kids(cfg, n, depth)[j])
    decreases n, 0
  {
    ghost var kids := Kids(cfg, n, depth);
    childItems := [];
    children := n.children;
    var i := 0;
    while i < cfg.arity
      invariant 0 <= i <= cfg.arity && |childItems| == i && |children| == cfg.arity
      invariant forall j | i <= j < cfg.arity :: children[j] == n.children[j]
      invariant forall j | 0 <= j < i :: children[j].Some? == n.children[j].Some? == childItems[j].Some?
      invariant forall j | 0 <= j < i && children[j].Some? ::
        && Valid(cfg, children[j].value, depth + 1)
        && Abs(cfg, children[j].value, depth + 1) == kids[j]
        && childItems[j].value == Digest(cfg, kids[j])
    {
      if children[i].Some? {
        var c := n.children[i].value;
        assert depth + 1 < cfg.height || c.item.Some? by {
          assert kids[i] != Empty;
        }
        var ci, c' := Item(cfg, c, depth + 1);
        children := children[i := Some(c')];
        childItems := childItems + [Some(ci)];
      } else {
        childItems := childItems + [None];
      }
      i := i + 1;
    }
  }

  /** Stores `v` at `position` below a node at `height`: a leaf overwrites
      its item; a node above the leaves becomes stale, allocates the child
      on the path if it is absent and stores into it. The caches of the
      other children are kept. */
  function Insert<T>(cfg: Config<T>, n: Node<T>, height: nat, position: nat, v: T): (r: Node<T>)
    requires Valid(cfg, n, height) && position < cfg.Cap(height)
    ensures Valid(cfg, r, height)
    ensures Abs(cfg, r, height) == Put(cfg, Abs(cfg, n, height), height, position, v)
    ensures r.item == if height == cfg.height then Some(v) else None
    ensures height < cfg.height ==>
      forall j | 0 <= j < cfg.arity && j != ChildLocation(cfg, height, position).0 :: r.children[j] == n.children[j]
    decreases cfg.height - height
  {
    if height == cfg.height then
      Node(Some(v), n.children)
    else
      CapSplit(cfg, height);
      var loc := ChildLocation(cfg, height, position);
      var child := if n.children[loc.0].Some? then n.children[loc.0].value else NewNode(cfg);
      SlotChild(cfg, n, height, loc.0);
      var child' := Insert(cfg, child, height + 1, loc.1, v);
      InsertedBelow(cfg, n, height, position, v, child');
      Node(None, n.children[loc.0 := Some(child')])
  }

  /** The node found in slot `i`, or a fresh one when the slot is absent,
      is valid and holds the content of that slot. */
  lemma SlotChild<T>(cfg: Config<T>, n: Node<T>, depth: nat, i: nat)
    requires Valid(cfg, n, depth) && depth < cfg.height && i < cfg.arity
    ensures
      var c := if n.children[i].Some? then n.children[i].value else NewNode(cfg);
      && Valid(cfg, c, depth + 1)
      && Abs(cfg, c, depth + 1) == Kids(cfg, n, depth)[i]
      && WellFormed(cfg, Kids(cfg, n, depth)[i], depth + 1)
  {
    NewNodeEmpty(cfg, depth + 1);
    if n.children[i].Some? {
      ValidWellFormed(cfg, n.children[i].value, depth + 1);
    }
  }

  /** After the child on the path to `position` has stored `v`, the stale
      node holding that child holds the old content with `v` stored at
      `position`. */
  lemma InsertedBelow<T>(cfg: Config<T>, n: Node<T>, height: nat, position: nat, v: T, child': Node<T>)
    requires Valid(cfg, n, height) && height < cfg.height && position < cfg.Cap(height)
    requires
      var loc := ChildLocation(cfg, height, position);
      && loc.0 < |n.children| && loc.1 < cfg.Cap(height + 1)
      && WellFormed(cfg, Kids(cfg, n, height)[loc.0], height + 1)
      && Valid(cfg, child', height + 1)
      && Abs(cfg, child', height + 1) == Put(cfg, Kids(cfg, n, height)[loc.0], height + 1, loc.1, v)
    ensures
      var r := Node(None, n.children[ChildLocation(cfg, height, position).0 := Some(child')]);
      && Valid(cfg, r, height)
      && Abs(cfg, r, height) == Put(cfg, Abs(cfg, n, height), height, position, v)
  {
    var loc := ChildLocation(cfg, height, position);
    PutStep(cfg, Abs(cfg, n, height), height, position, v);
    SlotsAbs(cfg, n, height);
    ReplaceSlot(cfg, n, height, loc.0, Some(child'));
    var r := Node(None, n.children[loc.0 := Some(child')]);
    assert Kids(cfg, r, height)[loc.0] != Empty;
  }

  /** Removes and returns the item at `position`, which must be occupied. A
      child left without children is freed, and the flag says whether any
      child slot is still present, i.e. whether the node still holds
      anything. The caches of the other children are kept. */
  method Remove<T>(cfg: Config<T>, n: Node<T>, height: nat, position: nat)
    returns (r: Node<T>, removed: T, hasChildren: bool)
    requires Valid(cfg, n, height) && position < cfg.Cap(height)
    requires Get(cfg, Abs(cfg, n, height), height, position).Some?
    ensures removed == Get(cfg, Abs(cfg, n, height), height, position).value
    ensures Abs(cfg, r, height) == Delete(cfg, Abs(cfg, n, height), height, position)
    ensures height < cfg.height ==> Valid(cfg, r, height)
    ensures r.item.None? && |r.children| == cfg.arity
    ensures hasChildren <==> exists i | 0 <= i < |r.children| :: r.children[i].Some?
    ensures hasChildren <==> Abs(cfg, r, height) != Empty
    ensures height < cfg.height ==>
      forall j | 0 <= j < cfg.arity && j != ChildLocation(cfg, height, position).0 :: r.children[j] == n.children[j]
    decreases cfg.height - height, 1
  {
    if height == cfg.height {
      removed := n.item.value;
      r := Node(None, n.children);
      hasChildren := false;
      return;
    }
    r, removed, hasChildren := RemoveAbove(cfg, n, height, position);
  }

  /** Removing below a node above the leaves: the child on the path gives
      up the item and is dropped when it has nothing left. */
  method RemoveAbove<T>(cfg: Config<T>, n: Node<T>, height: nat, position: nat)
    returns (r: Node<T>, removed: T, hasChildren: bool)
    requires Valid(cfg, n, height) && height < cfg.height && position < cfg.Cap(height)
    requires Get(cfg, Abs(cfg, n, height), height, position).Some?
    ensures removed == Get(cfg, Abs(cfg, n, height), height, position).value
    ensures Abs(cfg, r, height) == Delete(cfg, Abs(cfg, n, height), height, position)
    ensures Valid(cfg, r, height)
    ensures r.item.None? && |r.children| == cfg.arity
    ensures hasChildren <==> exists i | 0 <= i < |r.children| :: r.children[i].Some?
    ensures hasChildren <==> Abs(cfg, r, height) != Empty
    ensures forall j | 0 <= j < cfg.arity && j != ChildLocation(cfg, height, position).0 :: r.children[j] == n.children[j]
    decreases cfg.height - height, 0
  {
    var loc := ChildLocation(cfg, height, position);
    var childIndex, childPos := loc.0, loc.1;
    PathChild(cfg, n, height, position);
    var child := n.children[childIndex].value;
    var child', childHasChildren;
    child', removed, childHasChildren := Remove(cfg, child, height + 1, childPos);
    var slot := if childHasChildren then Some(child') else None;
    RemovedBelow(cfg, n, height, position, child', slot);
    r := Node(None, n.children[childIndex := slot]);
    hasChildren := AnyChild(r.children);
  }

  /** The child on the path to an occupied `position` is present and holds
      that position's item at its relative position. */
  lemma PathChild<T>(cfg: Config<T>, n: Node<T>, height: nat, position: nat)
    requires Valid(cfg, n, height) && height < cfg.height && position < cfg.Cap(height)
    requires Get(cfg, Abs(cfg, n, height), height, position).Some?
    ensures
      var loc := ChildLocation(cfg, height, position);
      && loc.0 < |n.children| && n.children[loc.0].Some? && loc.1 < cfg.Cap(height + 1)
      && Valid(cfg, n.children[loc.0].value, height + 1)
      && Get(cfg, Abs(cfg, n.children[loc.0].value, height + 1), height + 1, loc.1)
         == Get(cfg, Abs(cfg, n, height), height, position)
  {
    DeleteStep(cfg, Abs(cfg, n, height), height, position);
    SlotsAbs(cfg, n, height);
  }

  /** After the child on the path to `position` has removed it, the stale
      node holding the child, or nothing if the child became empty, holds
      the old content with `position` removed, and holds nothing exactly
      when no slot is present. */
  lemma RemovedBelow<T>(cfg: Config<T>, n: Node<T>, height: nat, position: nat, child': Node<T>, slot: Option<Node<T>>)
    requires Valid(cfg, n, height) && height < cfg.height && position < cfg.Cap(height)
    requires Get(cfg, Abs(cfg, n, height), height, position).Some?
    requires
      var loc := ChildLocation(cfg, height, position);
      && loc.0 < |n.children| && n.children[loc.0].Some? && loc.1 < cfg.Cap(height + 1)
      && WellFormed(cfg, Abs(cfg, n.children[loc.0].value, height + 1), height + 1)
      && Abs(cfg, child', height + 1) == Delete(cfg, Abs(cfg, n.children[loc.0].value, height + 1), height + 1, loc.1)
    requires height + 1 < cfg.height ==> Valid(cfg, child', height + 1)
    requires slot == if Abs(cfg, child', height + 1) != Empty then Some(child') else None
    ensures
      var r := Node(None, n.children[ChildLocation(cfg, height, position).0 := slot]);
      && Valid(cfg, r, height)
      && Abs(cfg, r, height) == Delete(cfg, Abs(cfg, n, height), height, position)
      && (Abs(cfg, r, height) == Empty <==> forall i | 0 <= i < |r.children| :: r.children[i].None?)
  {
    var loc := ChildLocation(cfg, height, position);
    DeleteStep(cfg, Abs(cfg, n, height), height, position);
    SlotsAbs(cfg, n, height);
    ReplaceSlot(cfg, n, height, loc.0, slot);
    var r := Node(None, n.children[loc.0 := slot]);
    SlotsAbs(cfg, r, height);
  }

  /** Whether any slot holds a child, scanning from the left and stopping
      at the first present one. */
  method AnyChild<T>(children: seq<Option<Node<T>>>) returns (hasChildren: bool)
    ensures hasChildren <==> exists i | 0 <= i < |children| :: children[i].Some?
  {
    hasChildren := false;
    for j := 0 to |children|
      invariant !hasChildren
      invariant forall k | 0 <= k < j :: children[k].None?
    {
      if children[j].Some? {
        hasChildren := true;
        break;
      }
    }
  }
}

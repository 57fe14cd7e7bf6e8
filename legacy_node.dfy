/** The node of the first, eagerly hashing version of the sparse Merkle
    tree. Unlike the current node it keeps no stale caches: every
    insertion recomputes the hashes on its path at once, with a zero that
    may depend on the height filling absent slots. Its leaves are the
    nodes one level above the positions (descent stops at height 1), and
    every node counts the insertions that passed through it.
 */
module LegacyNode {
  import opened Merkle
  import opened Sparse

  /** The aggregation contract of this version: the zero standing in for
      an absent child, which may depend on the height it is used at, and
      the hash of a sequence of items. */
  datatype Hasher<!T> = Hasher(zero: nat -> T, hash: seq<T> -> T)

  /** The compile-time parameters: the height, the arity and the
      aggregation contract. */
  datatype Params<!T> = Params(height: nat, arity: nat, hasher: Hasher<T>)

  /** A node: the number of insertions through it, its hash once anything
      was inserted below it, and its `ARITY` child slots. */
  datatype Node<T> = Node(numLeaves: nat, hash: Option<T>, children: seq<Option<Node<T>>>)

  /** A node with no insertions, no hash and every slot absent. */
  function NewNode<T>(p: Params<T>): (n: Node<T>)
    ensures n.numLeaves == 0 && n.hash.None? && |n.children| == p.arity
    ensures forall i | 0 <= i < |n.children| :: n.children[i].None?
  {
    Node(0, None, seq(p.arity, _ => None))
  }

  // ---- The abstract view ----

  /** The shape of the content of a node at `height`: leaves only at
      height 1, `ARITY` slots per inner node, none of them all empty. */
  ghost predicate Shaped<T>(p: Params<T>, t: Subtree<T>, height: nat)
    decreases t
  {
    match t
    case Empty => true
    case Leaf(_) => height == 1
    case Inner(kids) =>
      && height > 1
      && |kids| == p.arity
      && !AllEmpty(kids)
      && forall i | 0 <= i < |kids| :: Shaped(p, kids[i], height - 1)
  }

  /** The content of a node at `height`: a node at height 1 is a leaf once
      it has a hash; a node above holds its children's content. */
  function Abs<T>(p: Params<T>, n: Node<T>, height: nat): Subtree<T>
    decreases n, 1
  {
    if height <= 1 then
      if n.hash.Some? then Leaf(n.hash.value) else Empty
    else
      var kids := Kids(p, n, height);
      if AllEmpty(kids) then Empty else Inner(kids)
  }

  /** The contents of the slots of a node above height 1. */
  function Kids<T>(p: Params<T>, n: Node<T>, height: nat): (kids: seq<Subtree<T>>)
    requires height > 1
    ensures |kids| == |n.children|
    decreases n, 0
  {
    seq(|n.children|, i requires 0 <= i < |n.children| =>
      if n.children[i].Some? then Abs(p, n.children[i].value, height - 1) else Empty)
  }

  /** The slots of a subtree: its children, or all empty. */
  function Slots<T>(p: Params<T>, t: Subtree<T>): (kids: seq<Subtree<T>>)
    ensures t.Inner? ==> kids == t.kids
    ensures !t.Inner? ==> |kids| == p.arity && AllEmpty(kids)
  {
    if t.Inner? then t.kids else seq(p.arity, _ => Empty)
  }

  /** The eager hash of a subtree at `height`: none while empty, the leaf
      hash at height 1, and above it the hash of the children's hashes,
      the zero of the node's own height standing in for an absent child. */
  function Hash<T>(p: Params<T>, t: Subtree<T>, height: nat): Option<T>
    requires Shaped(p, t, height)
    decreases t
  {
    match t
    case Empty => None
    case Leaf(v) => Some(v)
    case Inner(kids) =>
      Some(p.hasher.hash(seq(|kids|, i requires 0 <= i < |kids| =>
        var h := Hash(p, kids[i], height - 1);
        if h.Some? then h.value else p.hasher.zero(height))))
  }

  /** The total of the insertion counters of `children`. */
  function Count<T>(children: seq<Option<Node<T>>>): nat
  {
    if children == [] then 0
    else (if children[0].Some? then children[0].value.numLeaves else 0) + Count(children[1..])
  }

  /** The node invariant: `ARITY` slots, none used at height 1; every
      present child valid and already inserted into; the counter of a node
      above height 1 the total of its children's; a hash exactly when
      something was inserted; and the hash the eager hash of the content. */
  ghost predicate Valid<T>(p: Params<T>, n: Node<T>, height: nat)
    decreases n
  {
    && |n.children| == p.arity
    && (forall i | 0 <= i < |n.children| && n.children[i].Some? ::
          && height > 1
          && Valid(p, n.children[i].value, height - 1)
          && n.children[i].value.numLeaves > 0)
    && (height > 1 ==> n.numLeaves == Count(n.children))
    && (n.numLeaves == 0 <==> n.hash.None?)
    && Shaped(p, Abs(p, n, height), height)
    && n.hash == Hash(p, Abs(p, n, height), height)
  }

  /** A new node is valid at every height and holds nothing. */
  lemma NewNodeEmpty<T>(p: Params<T>, height: nat)
    ensures Valid(p, NewNode(p), height) && Abs(p, NewNode(p), height) == Empty
  {
    var n := NewNode(p);
    if height > 1 {
      assert Kids(p, n, height) == seq(p.arity, _ => Empty);
    }
    assert Count(n.children) == 0 by { ZeroCount(n.children); }
  }

  /** Slots that are all absent count nothing. */
  lemma {:induction false} ZeroCount<T>(children: seq<Option<Node<T>>>)
    requires forall i | 0 <= i < |children| :: children[i].None?
    ensures Count(children) == 0
  {
    if children != [] {
      ZeroCount(children[1..]);
    }
  }

  /** Replacing one slot changes the total by the difference of the two
      counters. */
  lemma {:induction false} CountUpdate<T>(children: seq<Option<Node<T>>>, i: nat, c: Node<T>)
    requires i < |children|
    ensures Count(children[i := Some(c)]) + (if children[i].Some? then children[i].value.numLeaves else 0)
      == Count(children) + c.numLeaves
  {
    if i > 0 {
      CountUpdate(children[1..], i - 1, c);
      assert children[i := Some(c)][1..] == children[1..][i - 1 := Some(c)];
    }
  }

  // ---- Position arithmetic and the abstract store ----

  /** The slot below a node at `height` on the path to `position`, and the
      position relative to that child. */
  function Descend<T>(p: Params<T>, height: nat, position: nat): (loc: (nat, nat))
    requires height > 1 && position < Capacity(p.arity, height)
    ensures loc.0 < p.arity && loc.1 < Capacity(p.arity, height - 1)
    ensures position == loc.0 * Capacity(p.arity, height - 1) + loc.1
  {
    var childCap := Capacity(p.arity, height - 1);
    assert p.arity > 0;
    DivModFacts(position, childCap, p.arity);
    (position / childCap, position % childCap)
  }

  /** The positions a node at `height` accepts: every position at height 1,
      where descent stops, and those below its capacity above it. */
  predicate InRange<T>(p: Params<T>, height: nat, position: nat)
  {
    height == 1 || position < Capacity(p.arity, height)
  }

  /** Two positions reach the same leaf of a node at `height`: always at
      height 1, and above it when they agree but for the last digit. */
  predicate SameLeaf<T>(p: Params<T>, height: nat, x: nat, y: nat)
  {
    height == 1 || (p.arity > 0 && x / p.arity == y / p.arity)
  }

  /** The content after storing the leaf hash `v` for `position`: the leaf
      reached by descending to height 1 is overwritten and every node on
      the path becomes present. */
  function Store<T>(p: Params<T>, t: Subtree<T>, height: nat, position: nat, v: T): (r: Subtree<T>)
    requires height >= 1 && InRange(p, height, position) && Shaped(p, t, height)
    ensures Shaped(p, r, height) && r != Empty
    decreases height
  {
    if height == 1 then Leaf(v)
    else
      var loc := Descend(p, height, position);
      var kids := Slots(p, t);
      var kid := Store(p, kids[loc.0], height - 1, loc.1, v);
      var kids' := kids[loc.0 := kid];
      assert !kids'[loc.0].Empty?;
      Inner(kids')
  }

  /** The leaf hash stored for `position`, if any. */
  function Lookup<T>(p: Params<T>, t: Subtree<T>, height: nat, position: nat): Option<T>
    requires height >= 1 && InRange(p, height, position)
    decreases height
  {
    if height == 1 then
      if t.Leaf? then Some(t.value) else None
    else
      var loc := Descend(p, height, position);
      if t.Inner? && loc.0 < |t.kids| then Lookup(p, t.kids[loc.0], height - 1, loc.1) else None
  }

  /** One level of descent decides the same leaf: two positions share a
      leaf exactly when they take the same slot and share a leaf below it. */
  lemma SameLeafStep<T>(p: Params<T>, height: nat, x: nat, y: nat)
    requires height > 1 && x < Capacity(p.arity, height) && y < Capacity(p.arity, height)
    ensures
      var lx := Descend(p, height, x);
      var ly := Descend(p, height, y);
      SameLeaf(p, height, x, y) <==> lx.0 == ly.0 && SameLeaf(p, height - 1, lx.1, ly.1)
  {
    var a := p.arity;
    var d := Capacity(a, height - 2);
    assert a > 0 && d > 0;
    assert Capacity(a, height - 1) == a * d;
    if height == 2 {
      assert a * d == a;
    } else {
      DigitsAgree(x, y, a, d);
    }
  }

  /** Two numbers agree after dropping their last base-`a` digit exactly
      when they agree above the next `d` and in the digit below it. */
  lemma DigitsAgree(x: nat, y: nat, a: nat, d: nat)
    requires a > 0 && d > 0
    ensures x / a == y / a <==> x / (a * d) == y / (a * d) && (x % (a * d)) / a == (y % (a * d)) / a
  {
    var u, v := x / a, y / a;
    DivModProduct(x, a, d);
    DivModProduct(y, a, d);
    ModDiv(x, a, d);
    ModDiv(y, a, d);
    DivModDef(u, d);
    DivModDef(v, d);
  }

  /** Storing for one position and looking up another: the new hash when
      both reach the same leaf, the old content otherwise. */
  lemma {:induction false} LookupStore<T>(p: Params<T>, t: Subtree<T>, height: nat, x: nat, y: nat, v: T)
    requires height >= 1 && InRange(p, height, x) && InRange(p, height, y) && Shaped(p, t, height)
    ensures Lookup(p, Store(p, t, height, x, v), height, y)
      == if SameLeaf(p, height, x, y) then Some(v) else Lookup(p, t, height, y)
    decreases height
  {
    if height > 1 {
      var lx := Descend(p, height, x);
      var ly := Descend(p, height, y);
      SameLeafStep(p, height, x, y);
      var kids := Slots(p, t);
      assert Shaped(p, kids[ly.0], height - 1);
      if lx.0 == ly.0 {
        LookupStore(p, kids[lx.0], height - 1, lx.1, ly.1, v);
      }
    }
  }

  /** Positions that reach the same leaf store the same way. */
  lemma {:induction false} StoreSameLeaf<T>(p: Params<T>, t: Subtree<T>, height: nat, x: nat, y: nat, v: T)
    requires height >= 1 && InRange(p, height, x) && InRange(p, height, y) && Shaped(p, t, height)
    requires SameLeaf(p, height, x, y)
    ensures Store(p, t, height, x, v) == Store(p, t, height, y, v)
    decreases height
  {
    if height > 1 {
      var lx := Descend(p, height, x);
      SameLeafStep(p, height, x, y);
      var kids := Slots(p, t);
      assert Shaped(p, kids[lx.0], height - 1);
      StoreSameLeaf(p, kids[lx.0], height - 1, lx.1, Descend(p, height, y).1, v);
    }
  }

  // ---- Insertion ----

  /** Every present slot of `children` has a hash. */
  predicate Hashed<T>(children: seq<Option<Node<T>>>)
  {
    forall j | 0 <= j < |children| && children[j].Some? :: children[j].value.hash.Some?
  }

  /** The hash a node above height 1 recomputes from its slots: the hash of
      the children's hashes, the zero of its own height for absent slots. */
  function Rehash<T>(p: Params<T>, children: seq<Option<Node<T>>>, height: nat): T
    requires Hashed(children)
  {
    p.hasher.hash(seq(|children|, i requires 0 <= i < |children| =>
      if children[i].Some? then children[i].value.hash.value else p.hasher.zero(height)))
  }

  /** Inserts the leaf hashed from `data` for `position` below a node at
      `height`: at height 1 the node takes the hash and counts the
      insertion; above it the insertion descends. */
  function Insert<T>(p: Params<T>, n: Node<T>, height: nat, position: nat, data: seq<T>): (r: Node<T>)
    requires Valid(p, n, height) && height >= 1 && InRange(p, height, position)
    ensures Valid(p, r, height)
    ensures r.numLeaves == n.numLeaves + 1
    ensures Abs(p, r, height) == Store(p, Abs(p, n, height), height, position, p.hasher.hash(data))
    ensures height > 1 ==>
      forall j | 0 <= j < p.arity && j != Descend(p, height, position).0 :: r.children[j] == n.children[j]
    decreases height, 1
  {
    if height == 1 then
      InsertedLeaf(p, n, p.hasher.hash(data));
      Node(n.numLeaves + 1, Some(p.hasher.hash(data)), n.children)
    else
      InsertAbove(p, n, height, position, data)
  }

  /** Insertion below a node above height 1: the child on the path is
      allocated if absent and inserted into, and the node's hash is
      recomputed from its children's hashes. Every node on the path counts
      the insertion. */
  function InsertAbove<T>(p: Params<T>, n: Node<T>, height: nat, position: nat, data: seq<T>): (r: Node<T>)
    requires Valid(p, n, height) && height > 1 && position < Capacity(p.arity, height)
    ensures Valid(p, r, height)
    ensures r.numLeaves == n.numLeaves + 1
    ensures Abs(p, r, height) == Store(p, Abs(p, n, height), height, position, p.hasher.hash(data))
    ensures forall j | 0 <= j < p.arity && j != Descend(p, height, position).0 :: r.children[j] == n.children[j]
    decreases height, 0
  {
    var loc := Descend(p, height, position);
    var child := if n.children[loc.0].Some? then n.children[loc.0].value else NewNode(p);
    SlotChild(p, n, height, loc.0);
    var child' := Insert(p, child, height - 1, loc.1, data);
    var children := n.children[loc.0 := Some(child')];
    InsertedBelow(p, n, height, position, data, child');
    Node(n.numLeaves + 1, Some(Rehash(p, children, height)), children)
  }

  /** A leaf that takes the hash `v` and counts one more insertion is
      valid and holds `v`. */
  lemma InsertedLeaf<T>(p: Params<T>, n: Node<T>, v: T)
    requires Valid(p, n, 1)
    ensures Valid(p, Node(n.numLeaves + 1, Some(v), n.children), 1)
    ensures Abs(p, Node(n.numLeaves + 1, Some(v), n.children), 1) == Store(p, Abs(p, n, 1), 1, 0, v) == Leaf(v)
  {
  }

  /** The node found in slot `i`, or a new one when the slot is absent, is
      valid and holds the content of that slot. */
  lemma SlotChild<T>(p: Params<T>, n: Node<T>, height: nat, i: nat)
    requires Valid(p, n, height) && height > 1 && i < p.arity
    ensures
      var c := if n.children[i].Some? then n.children[i].value else NewNode(p);
      && Valid(p, c, height - 1)
      && Abs(p, c, height - 1) == Kids(p, n, height)[i]
      && Shaped(p, Kids(p, n, height)[i], height - 1)
  {
    NewNodeEmpty(p, height - 1);
  }

  /** The content of a node above height 1 is made of its slots. */
  lemma SlotsAbs<T>(p: Params<T>, n: Node<T>, height: nat)
    requires height > 1 && |n.children| == p.arity
    ensures Slots(p, Abs(p, n, height)) == Kids(p, n, height)
  {
    var kids := Kids(p, n, height);
    if AllEmpty(kids) {
      assert Slots(p, Abs(p, n, height)) == kids;
    }
  }

  /** Above height 1 the content depends on the slots only. */
  lemma SameSlots<T>(p: Params<T>, n: Node<T>, m: Node<T>, height: nat)
    requires height > 1 && n.children == m.children
    ensures Kids(p, n, height) == Kids(p, m, height)
    ensures Abs(p, n, height) == Abs(p, m, height)
  {
  }

  /** After the child on the path to `position` has been inserted into,
      the slots with that child hold the old content with the new leaf
      hash stored, and every present slot is valid and hashed. */
  lemma InsertedBelow<T>(p: Params<T>, n: Node<T>, height: nat, position: nat, data: seq<T>, child': Node<T>)
    requires Valid(p, n, height) && height > 1 && position < Capacity(p.arity, height)
    requires
      var loc := Descend(p, height, position);
      && Valid(p, child', height - 1)
      && child'.numLeaves == (if n.children[loc.0].Some? then n.children[loc.0].value.numLeaves else 0) + 1
      && Shaped(p, Kids(p, n, height)[loc.0], height - 1)
      && Abs(p, child', height - 1) == Store(p, Kids(p, n, height)[loc.0], height - 1, loc.1, p.hasher.hash(data))
    ensures
      var children := n.children[Descend(p, height, position).0 := Some(child')];
      && Hashed(children)
      && Valid(p, Node(n.numLeaves + 1, Some(Rehash(p, children, height)), children), height)
      && Abs(p, Node(n.numLeaves + 1, Some(Rehash(p, children, height)), children), height)
         == Store(p, Abs(p, n, height), height, position, p.hasher.hash(data))
  {
    var v := p.hasher.hash(data);
    InsertedSlots(p, n, height, position, v, child');
    var children := n.children[Descend(p, height, position).0 := Some(child')];
    Rehashed(p, children, height, n.numLeaves + 1);
    SameSlots(p, Node(0, None, children), Node(n.numLeaves + 1, Some(Rehash(p, children, height)), children), height);
  }

  /** With the inserted child in place, the slots count one more leaf and
      hold the old content with the new leaf hash stored. */
  lemma InsertedSlots<T>(p: Params<T>, n: Node<T>, height: nat, position: nat, v: T, child': Node<T>)
    requires Valid(p, n, height) && height > 1 && position < Capacity(p.arity, height)
    requires
      var loc := Descend(p, height, position);
      && Valid(p, child', height - 1)
      && child'.numLeaves == (if n.children[loc.0].Some? then n.children[loc.0].value.numLeaves else 0) + 1
      && Shaped(p, Kids(p, n, height)[loc.0], height - 1)
      && Abs(p, child', height - 1) == Store(p, Kids(p, n, height)[loc.0], height - 1, loc.1, v)
    ensures
      var children := n.children[Descend(p, height, position).0 := Some(child')];
      && Count(children) == n.numLeaves + 1
      && Abs(p, Node(0, None, children), height) == Store(p, Abs(p, n, height), height, position, v)
  {
    var loc := Descend(p, height, position);
    StoredSlots(p, n, height, position, v, child');
    CountUpdate(n.children, loc.0, child');
  }

  /** The slots with the inserted child in place hold the old content with
      the new leaf hash stored. */
  lemma StoredSlots<T>(p: Params<T>, n: Node<T>, height: nat, position: nat, v: T, child': Node<T>)
    requires |n.children| == p.arity && height > 1 && position < Capacity(p.arity, height)
    requires Shaped(p, Abs(p, n, height), height)
    requires
      var loc := Descend(p, height, position);
      && Shaped(p, Kids(p, n, height)[loc.0], height - 1)
      && Abs(p, child', height - 1) == Store(p, Kids(p, n, height)[loc.0], height - 1, loc.1, v)
    ensures
      var m := Node(0, None, n.children[Descend(p, height, position).0 := Some(child')]);
      Abs(p, m, height) == Store(p, Abs(p, n, height), height, position, v)
  {
    var loc := Descend(p, height, position);
    var m := Node(0, None, n.children[loc.0 := Some(child')]);
    var kids := Kids(p, n, height);
    SlotsAbs(p, n, height);
    KidsUpdate(p, n, height, loc.0, child');
    assert Kids(p, m, height)[loc.0] != Empty;
  }

  /** Putting `c` into slot `i` puts its content into that slot. */
  lemma KidsUpdate<T>(p: Params<T>, n: Node<T>, height: nat, i: nat, c: Node<T>)
    requires height > 1 && i < |n.children|
    ensures Kids(p, Node(0, None, n.children[i := Some(c)]), height) == Kids(p, n, height)[i := Abs(p, c, height - 1)]
  {
  }

  /** Valid slots, hashed and holding something, make a valid node with
      the recomputed hash and any positive counter equal to their total. */
  lemma Rehashed<T>(p: Params<T>, children: seq<Option<Node<T>>>, height: nat, count: nat)
    requires height > 1 && |children| == p.arity && count > 0 && count == Count(children)
    requires forall j | 0 <= j < |children| && children[j].Some? ::
      Valid(p, children[j].value, height - 1) && children[j].value.numLeaves > 0
    requires Shaped(p, Abs(p, Node(0, None, children), height), height)
    requires Abs(p, Node(0, None, children), height).Inner?
    ensures Hashed(children)
    ensures Valid(p, Node(count, Some(Rehash(p, children, height)), children), height)
  {
    var m := Node(0, None, children);
    var r := Node(count, Some(Rehash(p, children, height)), children);
    SameSlots(p, m, r, height);
    var kids := Kids(p, m, height);
    var got := seq(|kids|, i requires 0 <= i < |kids| =>
      var h := Hash(p, kids[i], height - 1);
      if h.Some? then h.value else p.hasher.zero(height));
    var want := seq(|children|, i requires 0 <= i < |children| =>
      if children[i].Some? then children[i].value.hash.value else p.hasher.zero(height));
    assert got == want;
  }
}

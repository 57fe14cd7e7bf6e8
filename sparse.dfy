/** The abstract view of a sparse subtree, against which the node, tree,
    opening and walk modules are proved: which children are present, what
    is stored at each leaf, the item the subtree aggregates to, and the
    base-`A` position arithmetic that finds the child on the path to a
    leaf.
 */
module Sparse {
  import opened Merkle

  /** The content of a subtree. `Empty` is an absent child (a subtree
      without occupied leaves); `Leaf` is a leaf node holding its item;
      `Inner` is a node above the leaves with its `A` child slots. */
  datatype Subtree<T> = Empty | Leaf(value: T) | Inner(kids: seq<Subtree<T>>)

  /** No slot of `kids` holds an occupied subtree. */
  predicate AllEmpty<T>(kids: seq<Subtree<T>>)
  {
    forall i | 0 <= i < |kids| :: kids[i].Empty?
  }

  /** The shape the node storage maintains for a subtree at `depth`: leaves
      only at depth `H`, `A` slots per inner node, and no inner node
      without an occupied slot (a child that became empty is freed). */
  ghost predicate WellFormed<T>(cfg: Config<T>, t: Subtree<T>, depth: nat)
    decreases t
  {
    && depth <= cfg.height
    && match t
       case Empty => true
       case Leaf(_) => depth == cfg.height
       case Inner(kids) =>
         && depth < cfg.height
         && |kids| == cfg.arity
         && !AllEmpty(kids)
         && forall i | 0 <= i < |kids| :: WellFormed(cfg, kids[i], depth + 1)
  }

  /** The item of a subtree: the empty value for an empty subtree, the
      stored item of a leaf, and otherwise the aggregate of the children's
      items, leftmost first, with the empty value in absent slots. */
  function Digest<T>(cfg: Config<T>, t: Subtree<T>): T
    decreases t
  {
    match t
    case Empty => cfg.agg.empty
    case Leaf(v) => v
    case Inner(kids) => cfg.agg.aggregate(seq(|kids|, i requires 0 <= i < |kids| => Digest(cfg, kids[i])))
  }

  /** The capacity of a node is `A` times that of each of its children. */
  lemma CapSplit<T>(cfg: Config<T>, depth: nat)
    requires cfg.Wf() && depth < cfg.height
    ensures cfg.Cap(depth) == cfg.arity * cfg.ChildCap(depth)
    ensures cfg.ChildCap(depth) >= 1
    ensures cfg.ChildCap(depth) == cfg.Cap(depth + 1)
  {
  }

  /** The slot below a node at `height` on the path to `position`, and the
      position relative to that child: the quotient and the remainder by
      the children's capacity. The slot exists exactly when the position
      lies within the node's capacity. */
  function ChildLocation<T>(cfg: Config<T>, height: nat, position: nat): (loc: (nat, nat))
    requires cfg.Wf() && height < cfg.height
    ensures loc.1 < cfg.ChildCap(height)
    ensures position == loc.0 * cfg.ChildCap(height) + loc.1
    ensures position < cfg.Cap(height) <==> loc.0 < cfg.arity
  {
    var childCap := cfg.ChildCap(height);
    assert cfg.Cap(height) == cfg.arity * childCap;
    DivModFacts(position, childCap, cfg.arity);
    (position / childCap, position % childCap)
  }

  /** Position `q` of child `i` is found again by `ChildLocation`. */
  lemma ChildLocationOf<T>(cfg: Config<T>, height: nat, i: nat, q: nat)
    requires cfg.Wf() && height < cfg.height && q < cfg.ChildCap(height)
    ensures ChildLocation(cfg, height, i * cfg.ChildCap(height) + q) == (i, q)
  {
    var loc := ChildLocation(cfg, height, i * cfg.ChildCap(height) + q);
    DecompositionUnique(loc.0, loc.1, i, q, cfg.ChildCap(height));
  }

  /** The item stored at `position` of a subtree at `depth`, if any. */
  function Get<T>(cfg: Config<T>, t: Subtree<T>, depth: nat, position: nat): Option<T>
    requires cfg.Wf() && depth <= cfg.height && position < cfg.Cap(depth)
    decreases t
  {
    match t
    case Empty => None
    case Leaf(v) => Some(v)
    case Inner(kids) =>
      if depth == cfg.height then None
      else
        var loc := ChildLocation(cfg, depth, position);
        CapSplit(cfg, depth);
        if loc.0 < |kids| then Get(cfg, kids[loc.0], depth + 1, loc.1) else None
  }

  /** The `A` slots of a node: its children, or all empty for a node
      without children. */
  function Slots<T>(cfg: Config<T>, t: Subtree<T>): (kids: seq<Subtree<T>>)
    ensures |kids| == cfg.arity || (t.Inner? && kids == t.kids)
  {
    if t.Inner? then t.kids else seq(cfg.arity, _ => Empty)
  }

  /** The subtree after storing `v` at `position`: the leaf is overwritten
      and every node on the path becomes present. */
  function Put<T>(cfg: Config<T>, t: Subtree<T>, depth: nat, position: nat, v: T): (r: Subtree<T>)
    requires cfg.Wf() && depth <= cfg.height && position < cfg.Cap(depth)
    requires WellFormed(cfg, t, depth)
    ensures WellFormed(cfg, r, depth) && r != Empty
    decreases cfg.height - depth
  {
    if depth == cfg.height then Leaf(v)
    else
      CapSplit(cfg, depth);
      var kids := Slots(cfg, t);
      var loc := ChildLocation(cfg, depth, position);
      var kid := Put(cfg, kids[loc.0], depth + 1, loc.1, v);
      var kids' := kids[loc.0 := kid];
      assert !kids'[loc.0].Empty?;
      Inner(kids')
  }

  /** The subtree after removing the leaf at `position`: the leaf goes, and
      every node on the path left without occupied children goes too. */
  function Delete<T>(cfg: Config<T>, t: Subtree<T>, depth: nat, position: nat): (r: Subtree<T>)
    requires cfg.Wf() && depth <= cfg.height && position < cfg.Cap(depth)
    requires WellFormed(cfg, t, depth)
    ensures WellFormed(cfg, r, depth)
    decreases t
  {
    match t
    case Empty => Empty
    case Leaf(_) => Empty
    case Inner(kids) =>
      CapSplit(cfg, depth);
      var loc := ChildLocation(cfg, depth, position);
      var kids' := kids[loc.0 := Delete(cfg, kids[loc.0], depth + 1, loc.1)];
      if AllEmpty(kids') then Empty else Inner(kids')
  }

  /** One level of `Put` below the leaves: the slot on the path is
      replaced by the child's updated content, which is not empty. */
  lemma PutStep<T>(cfg: Config<T>, t: Subtree<T>, depth: nat, position: nat, v: T)
    requires cfg.Wf() && depth < cfg.height && position < cfg.Cap(depth)
    requires WellFormed(cfg, t, depth)
    ensures
      var loc := ChildLocation(cfg, depth, position);
      var kids := Slots(cfg, t);
      && loc.0 < |kids| && loc.1 < cfg.Cap(depth + 1) && WellFormed(cfg, kids[loc.0], depth + 1)
      && Put(cfg, t, depth, position, v) == Inner(kids[loc.0 := Put(cfg, kids[loc.0], depth + 1, loc.1, v)])
  {
    CapSplit(cfg, depth);
  }

  /** One level of `Delete` below the leaves: the slot on the path is
      replaced by the child's remaining content, and the node goes when no
      slot is left occupied. */
  lemma DeleteStep<T>(cfg: Config<T>, t: Subtree<T>, depth: nat, position: nat)
    requires cfg.Wf() && depth < cfg.height && position < cfg.Cap(depth)
    requires WellFormed(cfg, t, depth) && Get(cfg, t, depth, position).Some?
    ensures
      var loc := ChildLocation(cfg, depth, position);
      && t.Inner? && loc.0 < |t.kids| && loc.1 < cfg.Cap(depth + 1)
      && WellFormed(cfg, t.kids[loc.0], depth + 1)
      && Get(cfg, t.kids[loc.0], depth + 1, loc.1) == Get(cfg, t, depth, position)
      && var kids := t.kids[loc.0 := Delete(cfg, t.kids[loc.0], depth + 1, loc.1)];
         Delete(cfg, t, depth, position) == if AllEmpty(kids) then Empty else Inner(kids)
  {
    CapSplit(cfg, depth);
  }

  /** After `Put`, the stored position holds `v` and every other position
      is unchanged. */
  lemma {:induction false} GetPut<T>(cfg: Config<T>, t: Subtree<T>, depth: nat, position: nat, v: T, r: nat)
    requires cfg.Wf() && depth <= cfg.height && position < cfg.Cap(depth) && r < cfg.Cap(depth)
    requires WellFormed(cfg, t, depth)
    ensures Get(cfg, Put(cfg, t, depth, position, v), depth, r) ==
            if r == position then Some(v) else Get(cfg, t, depth, r)
    decreases cfg.height - depth
  {
    if depth < cfg.height {
      CapSplit(cfg, depth);
      var c := cfg.ChildCap(depth);
      var kids := Slots(cfg, t);
      var loc := ChildLocation(cfg, depth, position);
      var at := ChildLocation(cfg, depth, r);
      var kid := Put(cfg, kids[loc.0], depth + 1, loc.1, v);
      assert Put(cfg, t, depth, position, v) == Inner(kids[loc.0 := kid]);
      if at.0 == loc.0 {
        GetPut(cfg, kids[loc.0], depth + 1, loc.1, v, at.1);
      }
    }
  }

  /** After `Delete`, the removed position is vacant and every other
      position is unchanged. */
  lemma {:induction false} GetDelete<T>(cfg: Config<T>, t: Subtree<T>, depth: nat, position: nat, r: nat)
    requires cfg.Wf() && depth <= cfg.height && position < cfg.Cap(depth) && r < cfg.Cap(depth)
    requires WellFormed(cfg, t, depth)
    ensures Get(cfg, Delete(cfg, t, depth, position), depth, r) ==
            if r == position then None else Get(cfg, t, depth, r)
    decreases t
  {
    match t
    case Empty =>
    case Leaf(_) =>
    case Inner(kids) =>
      CapSplit(cfg, depth);
      var c := cfg.ChildCap(depth);
      var loc := ChildLocation(cfg, depth, position);
      var at := ChildLocation(cfg, depth, r);
      var kids' := kids[loc.0 := Delete(cfg, kids[loc.0], depth + 1, loc.1)];
      if at.0 == loc.0 {
        GetDelete(cfg, kids[loc.0], depth + 1, loc.1, at.1);
      }
      if AllEmpty(kids') {
        assert kids'[at.0].Empty?;
      }
  }

  /** Position `q` of child `i` is position `p` of its parent. */
  lemma GetKid<T>(cfg: Config<T>, t: Subtree<T>, depth: nat, i: nat, q: nat) returns (p: nat)
    requires cfg.Wf() && WellFormed(cfg, t, depth) && t.Inner?
    requires i < cfg.arity && q < cfg.Cap(depth + 1)
    ensures p < cfg.Cap(depth) && p == i * cfg.ChildCap(depth) + q
    ensures Get(cfg, t, depth, p) == Get(cfg, t.kids[i], depth + 1, q)
  {
    CapSplit(cfg, depth);
    p := i * cfg.ChildCap(depth) + q;
    DigitBound(i, q, cfg.ChildCap(depth), cfg.arity);
    ChildLocationOf(cfg, depth, i, q);
  }

  /** A well-formed subtree that is not empty has an occupied leaf. */
  lemma {:induction false} SomeLeaf<T>(cfg: Config<T>, t: Subtree<T>, depth: nat) returns (p: nat)
    requires cfg.Wf() && WellFormed(cfg, t, depth) && t != Empty
    ensures p < cfg.Cap(depth) && Get(cfg, t, depth, p).Some?
    decreases t
  {
    match t
    case Leaf(_) =>
      p := 0;
    case Inner(kids) =>
      CapSplit(cfg, depth);
      var i :| 0 <= i < |kids| && !kids[i].Empty?;
      var q := SomeLeaf(cfg, kids[i], depth + 1);
      p := GetKid(cfg, t, depth, i, q);
  }

  /** A well-formed subtree is empty exactly when none of its positions
      holds an item. */
  lemma EmptyIffVacant<T>(cfg: Config<T>, t: Subtree<T>, depth: nat)
    requires cfg.Wf() && WellFormed(cfg, t, depth)
    ensures t == Empty <==> forall r: nat | r < cfg.Cap(depth) :: Get(cfg, t, depth, r) == None
  {
    if t != Empty {
      var p := SomeLeaf(cfg, t, depth);
    }
  }

  /** The representation is canonical: two well-formed subtrees holding the
      same items at the same positions are equal, whatever sequence of
      insertions and removals produced them. */
  lemma {:induction false} Canonical<T>(cfg: Config<T>, s: Subtree<T>, t: Subtree<T>, depth: nat)
    requires cfg.Wf() && WellFormed(cfg, s, depth) && WellFormed(cfg, t, depth)
    requires forall r: nat | r < cfg.Cap(depth) :: Get(cfg, s, depth, r) == Get(cfg, t, depth, r)
    ensures s == t
    decreases s
  {
    EmptyIffVacant(cfg, s, depth);
    EmptyIffVacant(cfg, t, depth);
    if s.Inner? && t.Inner? {
      CapSplit(cfg, depth);
      var below := depth + 1;
      forall i | 0 <= i < cfg.arity
        ensures s.kids[i] == t.kids[i]
      {
        forall q: nat | q < cfg.Cap(below)
          ensures Get(cfg, s.kids[i], below, q) == Get(cfg, t.kids[i], below, q)
        {
          var p := GetKid(cfg, s, depth, i, q);
          var p' := GetKid(cfg, t, depth, i, q);
        }
        Canonical(cfg, s.kids[i], t.kids[i], below);
      }
    } else if s.Leaf? && t.Leaf? {
      assert Get(cfg, s, depth, 0) == Get(cfg, t, depth, 0);
    }
  }

  /** Removing an item inserted at a vacant position gives back the subtree
      as it was: in particular a subtree holding one inserted item becomes
      empty again, every slot absent. */
  lemma DeleteUndoesPut<T>(cfg: Config<T>, t: Subtree<T>, depth: nat, position: nat, v: T)
    requires cfg.Wf() && depth <= cfg.height && position < cfg.Cap(depth)
    requires WellFormed(cfg, t, depth) && Get(cfg, t, depth, position).None?
    ensures Delete(cfg, Put(cfg, t, depth, position, v), depth, position) == t
  {
    var s := Delete(cfg, Put(cfg, t, depth, position, v), depth, position);
    forall r: nat | r < cfg.Cap(depth)
      ensures Get(cfg, s, depth, r) == Get(cfg, t, depth, r)
    {
      GetPut(cfg, t, depth, position, v, r);
      GetDelete(cfg, Put(cfg, t, depth, position, v), depth, position, r);
    }
    Canonical(cfg, s, t, depth);
  }

  /** The occupied positions of a subtree, with their items. */
  ghost function Leaves<T>(cfg: Config<T>, t: Subtree<T>, depth: nat): (m: map<nat, T>)
    requires cfg.Wf() && depth <= cfg.height
    ensures forall r | r in m :: r < cfg.Cap(depth)
  {
    map r: nat | r < cfg.Cap(depth) && Get(cfg, t, depth, r).Some? :: Get(cfg, t, depth, r).value
  }

  /** Storing `v` at `position` updates exactly that entry of the leaves. */
  lemma LeavesPut<T>(cfg: Config<T>, t: Subtree<T>, depth: nat, position: nat, v: T)
    requires cfg.Wf() && depth <= cfg.height && position < cfg.Cap(depth)
    requires WellFormed(cfg, t, depth)
    ensures Leaves(cfg, Put(cfg, t, depth, position, v), depth) == Leaves(cfg, t, depth)[position := v]
  {
    var after := Leaves(cfg, Put(cfg, t, depth, position, v), depth);
    var expected := Leaves(cfg, t, depth)[position := v];
    forall r: nat | r < cfg.Cap(depth)
      ensures (r in after) == (r in expected)
      ensures r in after ==> after[r] == expected[r]
    {
      GetPut(cfg, t, depth, position, v, r);
    }
    assert after.Keys == expected.Keys;
  }

  /** Removing `position` drops exactly that entry of the leaves. */
  lemma LeavesDelete<T>(cfg: Config<T>, t: Subtree<T>, depth: nat, position: nat)
    requires cfg.Wf() && depth <= cfg.height && position < cfg.Cap(depth)
    requires WellFormed(cfg, t, depth)
    ensures Leaves(cfg, Delete(cfg, t, depth, position), depth) == Leaves(cfg, t, depth) - {position}
  {
    var after := Leaves(cfg, Delete(cfg, t, depth, position), depth);
    var expected := Leaves(cfg, t, depth) - {position};
    forall r: nat | r < cfg.Cap(depth)
      ensures (r in after) == (r in expected)
      ensures r in after ==> after[r] == expected[r]
    {
      GetDelete(cfg, t, depth, position, r);
    }
    assert after.Keys == expected.Keys;
  }

  /** A well-formed subtree is empty exactly when it has no leaves. */
  lemma EmptyIffNoLeaves<T>(cfg: Config<T>, t: Subtree<T>, depth: nat)
    requires cfg.Wf() && WellFormed(cfg, t, depth)
    ensures t == Empty <==> Leaves(cfg, t, depth) == map[]
  {
    EmptyIffVacant(cfg, t, depth);
    if t != Empty {
      var p := SomeLeaf(cfg, t, depth);
      assert p in Leaves(cfg, t, depth);
    }
  }
}

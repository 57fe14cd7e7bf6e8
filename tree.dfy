/** The sparse tree as its users see it: a root node together with the
    ordered set of occupied positions, which always agrees with the leaves
    actually stored below the root.
 */
module Trees {
  import opened Merkle
  import opened Sparse
  import MerkleNode
  import Position
  import Openings
  import WalkOrder
  import Walks

  class Tree<T> {
    const cfg: Config<T>
    var root: MerkleNode.Node<T>
    var positions: set<nat>

    /** The stored leaves, by position. */
    ghost function Contents(): map<nat, T>
      reads this
      requires cfg.Wf()
    {
      Leaves(cfg, MerkleNode.Abs(cfg, root, 0), 0)
    }

    /** The tree's invariant: a valid root, and a set of positions that is
      exactly the set of occupied positions. */
    ghost predicate Valid()
      reads this
    {
      && cfg.Wf() && MerkleNode.Valid(cfg, root, 0)
      && positions == Contents().Keys
    }

    /** An empty tree: no positions, and a root whose cache already holds
      the empty value. */
    constructor(cfg: Config<T>)
      requires cfg.Wf()
      ensures Valid() && this.cfg == cfg
      ensures positions == {} && Contents() == map[]
      ensures root.item == Some(cfg.agg.empty)
    {
      this.cfg := cfg;
      root := MerkleNode.Node(Some(cfg.agg.empty), seq(cfg.arity, _ => None));
      positions := {};
      new;
      EmptyRoot(cfg, root);
    }

    /** Stores `item` at `position`, replacing what was there. */
    method Insert(position: nat, item: T)
      requires Valid() && position < cfg.Cap(0)
      modifies this
      ensures Valid()
      ensures Contents() == old(Contents())[position := item]
      ensures positions == old(positions) + {position}
    {
      ghost var before := MerkleNode.Abs(cfg, root, 0);
      MerkleNode.ValidWellFormed(cfg, root, 0);
      root := MerkleNode.Insert(cfg, root, 0, position, item);
      positions := positions + {position};
      LeavesPut(cfg, before, 0, position, item);
    }

    /** Removes and returns the item at `position`; an unoccupied position
      gives `None` and leaves the tree as it was. A tree left with no
      leaves gets the empty value as its root again. */
    method Remove(position: nat) returns (r: Option<T>)
      requires Valid()
      modifies this
      ensures Valid()
      ensures position !in old(positions) ==> r.None? && root == old(root) && positions == old(positions)
      ensures position in old(positions) ==>
        && r == Some(old(Contents())[position])
        && Contents() == old(Contents()) - {position}
        && positions == old(positions) - {position}
      ensures position in old(positions) && positions == {} ==> root.item == Some(cfg.agg.empty)
    {
      if position !in positions {
        return None;
      }
      ghost var before := MerkleNode.Abs(cfg, root, 0);
      MerkleNode.ValidWellFormed(cfg, root, 0);
      var removed, hasChildren;
      root, removed, hasChildren := MerkleNode.Remove(cfg, root, 0, position);
      positions := positions - {position};
      LeavesDelete(cfg, before, 0, position);
      if positions == {} {
        ClearedRoot(cfg, root);
        root := root.(item := Some(cfg.agg.empty));
      }
      return Some(removed);
    }

    /** The root item: the aggregate of the whole tree, recomputed from the
      children if the cache is stale and memoised. */
    method Root() returns (r: T)
      requires Valid()
      modifies this
      ensures Valid() && positions == old(positions) && Contents() == old(Contents())
      ensures r == Digest(cfg, MerkleNode.Abs(cfg, root, 0))
      ensures positions == {} ==> r == cfg.agg.empty
    {
      ghost var before := MerkleNode.Abs(cfg, root, 0);
      r, root := MerkleNode.Item(cfg, root, 0);
      if positions == {} {
        MerkleNode.ValidWellFormed(cfg, root, 0);
        EmptyIffNoLeaves(cfg, before, 0);
      }
    }

    /** Whether a leaf is stored at `position`. */
    function Contains(position: nat): (b: bool)
      reads this
      requires Valid()
      ensures b <==> position in Contents()
    {
      position in positions
    }

    /** The number of stored leaves. */
    function Len(): (n: nat)
      reads this
      requires Valid()
      ensures n == |Contents()|
    {
      assert |Contents()| == |Contents().Keys|;
      |positions|
    }

    /** Whether no leaf is stored. */
    function IsEmpty(): (b: bool)
      reads this
      requires Valid()
      ensures b <==> Contents() == map[]
      ensures b <==> Len() == 0
    {
      Len() == 0
    }

    /** The number of leaf positions, `A^H`. */
    function Capacity(): (c: nat)
      reads this
      requires Valid()
      ensures c == Merkle.Capacity(cfg.arity, cfg.height) && c >= 1
      ensures forall p | p in Contents() :: p < c
    {
      cfg.Cap(0)
    }

    /** The opening of `position`, present exactly when a leaf is stored
      there; it verifies the stored item and no other. */
    method Opening(position: nat) returns (o: Option<Openings.Opening<T>>)
      requires Valid()
      ensures o.None? <==> position !in Contents()
      ensures o.Some? ==>
        && Openings.Shaped(cfg, o.value)
        && o.value == Openings.OpeningOf(cfg, MerkleNode.Abs(cfg, root, 0), Position.Digits(cfg.arity, cfg.height, position))
      ensures o.Some? ==> forall x: T :: Openings.VerifyFrom(cfg, o.value, x, cfg.height) <==> x == Contents()[position]
    {
      if position !in positions {
        return None;
      }
      var at := Position.From(cfg, position);
      var t := MerkleNode.Abs(cfg, root, 0);
      MerkleNode.ValidWellFormed(cfg, root, 0);
      OccupiedDigits(cfg, t, position);
      var opening := Openings.New(cfg, root, at);
      forall x: T ensures Openings.VerifyFrom(cfg, opening, x, cfg.height) <==> x == Contents()[position] {
        OpeningOfLeaf(cfg, t, position, x);
      }
      o := Some(opening);
    }

    /** A walk through the tree guided by `walker`, holding a snapshot of
      the tree: it will yield, in ascending position order, the leaves it
      reaches. */
    method Walk(walker: T -> bool) returns (w: Walks.Walk<T>)
      requires Valid()
      ensures fresh(w) && w.Valid() && w.cfg == cfg && w.root == root && w.walker == walker
      ensures w.Remaining() == WalkOrder.Hits(cfg, walker, MerkleNode.Abs(cfg, root, 0), 0)
    {
      w := new Walks.Walk(cfg, root, walker);
    }
  }

  /** A root with a cache holding the empty value and no children is valid
      and holds nothing. */
  lemma EmptyRoot<T>(cfg: Config<T>, root: MerkleNode.Node<T>)
    requires cfg.Wf() && root == MerkleNode.Node(Some(cfg.agg.empty), seq(cfg.arity, _ => None))
    ensures MerkleNode.Valid(cfg, root, 0) && MerkleNode.Abs(cfg, root, 0) == Empty
    ensures Leaves(cfg, MerkleNode.Abs(cfg, root, 0), 0) == map[]
  {
    MerkleNode.NewNodeEmpty(cfg, 0);
    MerkleNode.SameKids(cfg, MerkleNode.NewNode(cfg), root.children, 0, root.item);
    EmptyIffNoLeaves(cfg, Empty, 0);
  }

  /** A root left with no leaves may have its cache set to the empty value. */
  lemma ClearedRoot<T>(cfg: Config<T>, root: MerkleNode.Node<T>)
    requires MerkleNode.Valid(cfg, root, 0) && cfg.height > 0
    requires Leaves(cfg, MerkleNode.Abs(cfg, root, 0), 0) == map[]
    ensures MerkleNode.Valid(cfg, root.(item := Some(cfg.agg.empty)), 0)
    ensures MerkleNode.Abs(cfg, root.(item := Some(cfg.agg.empty)), 0) == MerkleNode.Abs(cfg, root, 0) == Empty
  {
    MerkleNode.ValidWellFormed(cfg, root, 0);
    EmptyIffNoLeaves(cfg, MerkleNode.Abs(cfg, root, 0), 0);
    MerkleNode.SameKids(cfg, root, root.children, 0, Some(cfg.agg.empty));
  }

  /** The digits of an occupied position lead to it from the root. */
  lemma OccupiedDigits<T>(cfg: Config<T>, t: Subtree<T>, position: nat)
    requires cfg.Wf() && WellFormed(cfg, t, 0) && position in Leaves(cfg, t, 0)
    ensures var d := Position.Digits(cfg.arity, cfg.height, position);
      && Position.WellFormedIndices(cfg, d)
      && Position.Relative(cfg, d, 0) == position
      && Get(cfg, t, 0, Position.Relative(cfg, d, 0)) == Some(Leaves(cfg, t, 0)[position])
  {
    var cap := cfg.Cap(0);
    assert position < cap;
    DivModOf(position, 0, cap, position);
    Position.IndicesAreChildLocations(cfg, position, 0);
  }

  /** The opening of an occupied position verifies the leaf stored there
      and nothing else. */
  lemma OpeningOfLeaf<T>(cfg: Config<T>, t: Subtree<T>, position: nat, x: T)
    requires cfg.Wf() && WellFormed(cfg, t, 0) && position in Leaves(cfg, t, 0)
    ensures var d := Position.Digits(cfg.arity, cfg.height, position);
      Position.WellFormedIndices(cfg, d) &&
      (Openings.VerifyFrom(cfg, Openings.OpeningOf(cfg, t, d), x, cfg.height) <==> x == Leaves(cfg, t, 0)[position])
  {
    var d := Position.Digits(cfg.arity, cfg.height, position);
    OccupiedDigits(cfg, t, position);
    Openings.OpeningVerifies(cfg, t, d, x);
  }
}

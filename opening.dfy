/** Merkle openings: the root item, one row of `A` sibling items per level
    on the path to a leaf (`None` in absent slots) and the child index
    taken at each level; and their verification, which recomputes the path
    from the leaf up and compares the result with the stored root.
 */
module Openings {
  import opened Merkle
  import opened Sparse
  import opened MerkleNode
  import opened Position

  /** An opening for a position: `branch[h]` is the row of items of the
      node at level `h` on the path, `positions[h]` the index taken there. */
  datatype Opening<T> = Opening(root: T, branch: seq<seq<Option<T>>>, positions: seq<nat>)

  /** `H` rows of `A` entries and an index below `A` at every level. */
  predicate Shaped<T>(cfg: Config<T>, o: Opening<T>)
  {
    && |o.branch| == cfg.height && |o.positions| == cfg.height
    && forall h | 0 <= h < cfg.height :: |o.branch[h]| == cfg.arity && o.positions[h] < cfg.arity
  }

  // ---- The opening of an abstract subtree ----

  /** The row of a node: the item of each present child, `None` for an
      absent one. */
  function Row<T>(cfg: Config<T>, t: Subtree<T>): (row: seq<Option<T>>)
    requires |Slots(cfg, t)| == cfg.arity
    ensures |row| == cfg.arity
    ensures forall i | 0 <= i < cfg.arity :: row[i].None? <==> Slots(cfg, t)[i] == Empty
    ensures forall i | 0 <= i < cfg.arity && row[i].Some? :: row[i].value == Digest(cfg, Slots(cfg, t)[i])
  {
    var kids := Slots(cfg, t);
    seq(cfg.arity, i requires 0 <= i < cfg.arity => if kids[i] == Empty then None else Some(Digest(cfg, kids[i])))
  }

  /** The rows from `depth` down to the leaves along the indices `d`. */
  ghost function Branch<T>(cfg: Config<T>, t: Subtree<T>, depth: nat, d: seq<nat>): (b: seq<seq<Option<T>>>)
    requires cfg.Wf() && depth <= cfg.height && WellFormed(cfg, t, depth) && WellFormedIndices(cfg, d)
    ensures |b| == cfg.height - depth && forall j | 0 <= j < |b| :: |b[j]| == cfg.arity
    decreases cfg.height - depth
  {
    if depth == cfg.height then []
    else
      SlotWellFormed(cfg, t, depth, d[depth]);
      [Row(cfg, t)] + Branch(cfg, Slots(cfg, t)[d[depth]], depth + 1, d)
  }

  /** The opening of a tree holding `t`, for the position with indices `d`. */
  ghost function OpeningOf<T>(cfg: Config<T>, t: Subtree<T>, d: seq<nat>): (o: Opening<T>)
    requires cfg.Wf() && WellFormed(cfg, t, 0) && WellFormedIndices(cfg, d)
    ensures Shaped(cfg, o)
  {
    Opening(Digest(cfg, t), Branch(cfg, t, 0, d), d)
  }

  /** The subtree at level `k` on the path along `d`. */
  ghost function PathSub<T>(cfg: Config<T>, t: Subtree<T>, depth: nat, d: seq<nat>, k: nat): (s: Subtree<T>)
    requires cfg.Wf() && depth <= k <= cfg.height && WellFormed(cfg, t, depth) && WellFormedIndices(cfg, d)
    ensures WellFormed(cfg, s, k)
    decreases k - depth
  {
    if k == depth then t
    else
      SlotWellFormed(cfg, t, depth, d[depth]);
      PathSub(cfg, Slots(cfg, t)[d[depth]], depth + 1, d, k)
  }

  /** The slots of a well-formed node are `A` well-formed subtrees. */
  lemma SlotWellFormed<T>(cfg: Config<T>, t: Subtree<T>, depth: nat, i: nat)
    requires WellFormed(cfg, t, depth) && depth < cfg.height && i < cfg.arity
    ensures |Slots(cfg, t)| == cfg.arity && WellFormed(cfg, Slots(cfg, t)[i], depth + 1)
  {
  }

  // ---- Verification ----

  /** The items of a row with the empty value in absent slots. */
  function Unwrapped<T>(cfg: Config<T>, row: seq<Option<T>>): (items: seq<T>)
    ensures |items| == |row|
    ensures forall i | 0 <= i < |row| :: items[i] == if row[i].Some? then row[i].value else cfg.agg.empty
  {
    seq(|row|, i requires 0 <= i < |row| => if row[i].Some? then row[i].value else cfg.agg.empty)
  }

  /** Verification of the `k` lowest levels, carrying `item` from level
      `k - 1` upwards: each level must hold the carried item at the index
      taken, and passes up the aggregate of its row; at the top the carried
      item must be the root. */
  function VerifyFrom<T(==)>(cfg: Config<T>, o: Opening<T>, item: T, k: nat): bool
    requires Shaped(cfg, o) && k <= cfg.height
    decreases k
  {
    if k == 0 then o.root == item
    else if o.branch[k - 1][o.positions[k - 1]] != Some(item) then false
    else VerifyFrom(cfg, o, cfg.Combine(Unwrapped(cfg, o.branch[k - 1])), k - 1)
  }

  /** Checks that `item` is the leaf of the opening and that the opening
      recomputes its root, scanning the levels from the leaves up and
      stopping at the first level that does not hold the carried item. */
  method Verify<T(==)>(cfg: Config<T>, o: Opening<T>, item: T) returns (ok: bool)
    requires Shaped(cfg, o)
    ensures ok == VerifyFrom(cfg, o, item, cfg.height)
  {
    var carried := item;
    var h: nat := cfg.height;
    while h > 0
      invariant h <= cfg.height
      invariant VerifyFrom(cfg, o, carried, h) == VerifyFrom(cfg, o, item, cfg.height)
    {
      h := h - 1;
      var level := o.branch[h];
      var position := o.positions[h];
      if Some(carried) != level[position] {
        return false;
      }
      assert |level| == cfg.arity;
      var nullItem := cfg.agg.empty;
      var items := seq(cfg.arity, i requires 0 <= i < cfg.arity => if level[i].Some? then level[i].value else nullItem);
      assert items == Unwrapped(cfg, level);
      carried := cfg.Combine(items);
    }
    ok := o.root == carried;
  }

  // ---- Construction from the node storage ----

  /** The row of a node, read from its children's items. */
  lemma RowOfNode<T>(cfg: Config<T>, n: Node<T>, depth: nat, items: seq<Option<T>>)
    requires Valid(cfg, n, depth) && depth < cfg.height && |items| == cfg.arity
    requires forall j | 0 <= j < cfg.arity :: n.children[j].Some? == items[j].Some?
    requires forall j | 0 <= j < cfg.arity && items[j].Some? :: items[j].value == Digest(cfg, Kids(cfg, n, depth)[j])
    ensures |Slots(cfg, Abs(cfg, n, depth))| == cfg.arity
    ensures items == Row(cfg, Abs(cfg, n, depth))
  {
    SlotsAbs(cfg, n, depth);
  }

  /** Fills the levels from `height` down for the position with indices
      `d`, below `node` at `height`: the deeper levels first, then the row
      of `node` and the index taken at `height`. The position must be
      occupied. */
  method FillOpening<T>(cfg: Config<T>, o: Opening<T>, node: Node<T>, height: nat, position: TreePosition)
    returns (o': Opening<T>)
    requires Valid(cfg, node, height) && WellFormedIndices(cfg, position.indices)
    requires |o.branch| == cfg.height && |o.positions| == cfg.height
    requires Get(cfg, Abs(cfg, node, height), height, Relative(cfg, position.indices, height)).Some?
    ensures o'.root == o.root
    ensures o'.branch == o.branch[..height] + Branch(cfg, Abs(cfg, node, height), height, position.indices)
    ensures o'.positions == o.positions[..height] + position.indices[height..]
    decreases cfg.height - height
  {
    ValidWellFormed(cfg, node, height);
    if height == cfg.height {
      return o;
    }
    var d := position.indices;
    DescendIndices(cfg, d, height);
    PathChild(cfg, node, height, Relative(cfg, d, height));
    var childIndex := d[height];
    var child := node.children[childIndex].value;
    var filled := FillOpening(cfg, o, child, height + 1, position);
    var row, _ := ChildItems(cfg, node, height);
    RowOfNode(cfg, node, height, row);
    o' := filled.(branch := filled.branch[height := row], positions := filled.positions[height := childIndex]);
    FilledLevel(cfg, o, filled, o', node, height, d);
  }

  /** Writing the row and index of `node` at `height` above the filled
      deeper levels gives the branch from `height`. */
  lemma FilledLevel<T>(cfg: Config<T>, o: Opening<T>, filled: Opening<T>, o': Opening<T>, node: Node<T>, height: nat, d: seq<nat>)
    requires Valid(cfg, node, height) && height < cfg.height && WellFormedIndices(cfg, d)
    requires |o.branch| == cfg.height && |o.positions| == cfg.height
    requires node.children[d[height]].Some? && Valid(cfg, node.children[d[height]].value, height + 1)
    requires filled.branch == o.branch[..height + 1] + Branch(cfg, Abs(cfg, node.children[d[height]].value, height + 1), height + 1, d)
    requires filled.positions == o.positions[..height + 1] + d[height + 1..]
    requires o'.branch == filled.branch[height := Row(cfg, Abs(cfg, node, height))]
    requires o'.positions == filled.positions[height := d[height]]
    ensures o'.branch == o.branch[..height] + Branch(cfg, Abs(cfg, node, height), height, d)
    ensures o'.positions == o.positions[..height] + d[height..]
  {
    var t := Abs(cfg, node, height);
    var below := Abs(cfg, node.children[d[height]].value, height + 1);
    ValidWellFormed(cfg, node, height);
    SlotsAbs(cfg, node, height);
    assert Slots(cfg, t)[d[height]] == below;
    assert Branch(cfg, t, height, d) == [Row(cfg, t)] + Branch(cfg, below, height + 1, d);
    Splice(o.branch, Row(cfg, t), Branch(cfg, below, height + 1, d), height);
    Splice(o.positions, d[height], d[height + 1..], height);
    assert d[height..] == [d[height]] + d[height + 1..];
  }

  /** Overwriting the last kept element of a prefix. */
  lemma Splice<X>(s: seq<X>, x: X, rest: seq<X>, k: nat)
    requires k < |s|
    ensures (s[..k + 1] + rest)[k := x] == s[..k] + ([x] + rest)
  {
    assert (s[..k + 1] + rest)[k := x] == s[..k] + [x] + rest;
  }

  /** Builds the opening for an occupied position of the tree whose root
      is `root`: every row starts out all `None` and every index 0, the
      root entry is the root's item, and the path is then filled in. */
  method New<T>(cfg: Config<T>, root: Node<T>, position: TreePosition) returns (o: Opening<T>)
    requires Valid(cfg, root, 0) && WellFormedIndices(cfg, position.indices)
    requires Get(cfg, Abs(cfg, root, 0), 0, Relative(cfg, position.indices, 0)).Some?
    ensures o == OpeningOf(cfg, Abs(cfg, root, 0), position.indices)
  {
    var positions := seq(cfg.height, _ => 0);
    var empty := InitArray(cfg.arity, _ => None);
    var branch := InitArray(cfg.height, _ => empty);
    var rootItem, _ := Item(cfg, root, 0);
    o := Opening(rootItem, branch, positions);
    o := FillOpening(cfg, o, root, 0, position);
  }

  // ---- Completeness and uniqueness ----

  /** The rows of the branch are the rows of the subtrees on the path. */
  lemma {:induction false} BranchAt<T>(cfg: Config<T>, t: Subtree<T>, depth: nat, d: seq<nat>, k: nat)
    requires cfg.Wf() && depth <= k < cfg.height && WellFormed(cfg, t, depth) && WellFormedIndices(cfg, d)
    ensures |Slots(cfg, PathSub(cfg, t, depth, d, k))| == cfg.arity
    ensures Branch(cfg, t, depth, d)[k - depth] == Row(cfg, PathSub(cfg, t, depth, d, k))
    decreases k - depth
  {
    SlotWellFormed(cfg, PathSub(cfg, t, depth, d, k), k, 0);
    if k > depth {
      SlotWellFormed(cfg, t, depth, d[depth]);
      BranchAt(cfg, Slots(cfg, t)[d[depth]], depth + 1, d, k);
    }
  }

  /** Along the indices of an occupied position, every subtree on the path
      holds the leaf at its relative position, and the one at the leaves is
      the leaf itself. */
  lemma {:induction false} PathHoldsLeaf<T>(cfg: Config<T>, t: Subtree<T>, d: seq<nat>, k: nat)
    requires cfg.Wf() && k <= cfg.height && WellFormed(cfg, t, 0) && WellFormedIndices(cfg, d)
    requires Get(cfg, t, 0, Relative(cfg, d, 0)).Some?
    ensures Get(cfg, PathSub(cfg, t, 0, d, k), k, Relative(cfg, d, k)) == Get(cfg, t, 0, Relative(cfg, d, 0))
  {
    if k > 0 {
      PathHoldsLeaf(cfg, t, d, k - 1);
      var s := PathSub(cfg, t, 0, d, k - 1);
      DescendIndices(cfg, d, k - 1);
      DeleteStep(cfg, s, k - 1, Relative(cfg, d, k - 1));
      PathSubStep(cfg, t, 0, d, k - 1);
    }
  }

  /** One more level down the path is the slot taken at the level above. */
  lemma {:induction false} PathSubStep<T>(cfg: Config<T>, t: Subtree<T>, depth: nat, d: seq<nat>, k: nat)
    requires cfg.Wf() && depth <= k < cfg.height && WellFormed(cfg, t, depth) && WellFormedIndices(cfg, d)
    ensures |Slots(cfg, PathSub(cfg, t, depth, d, k))| == cfg.arity
    ensures PathSub(cfg, t, depth, d, k + 1) == Slots(cfg, PathSub(cfg, t, depth, d, k))[d[k]]
    decreases k - depth
  {
    SlotWellFormed(cfg, PathSub(cfg, t, depth, d, k), k, d[k]);
    if k > depth {
      SlotWellFormed(cfg, t, depth, d[depth]);
      PathSubStep(cfg, Slots(cfg, t)[d[depth]], depth + 1, d, k);
    }
  }

  /** The aggregate of a non-empty node's row is the node's item. */
  lemma RowDigest<T>(cfg: Config<T>, s: Subtree<T>, depth: nat)
    requires cfg.Wf() && depth < cfg.height && WellFormed(cfg, s, depth) && s != Empty
    ensures |Slots(cfg, s)| == cfg.arity
    ensures cfg.Combine(Unwrapped(cfg, Row(cfg, s))) == Digest(cfg, s)
  {
    var items := Unwrapped(cfg, Row(cfg, s));
    assert items == seq(|s.kids|, i requires 0 <= i < |s.kids| => Digest(cfg, s.kids[i]));
  }

  /** Verifying the lowest `k` levels of the opening of an occupied
      position with the item of the subtree at level `k` on the path
      succeeds. */
  lemma {:induction false} VerifyPath<T>(cfg: Config<T>, t: Subtree<T>, d: seq<nat>, k: nat)
    requires cfg.Wf() && k <= cfg.height && WellFormed(cfg, t, 0) && WellFormedIndices(cfg, d)
    requires Get(cfg, t, 0, Relative(cfg, d, 0)).Some?
    ensures VerifyFrom(cfg, OpeningOf(cfg, t, d), Digest(cfg, PathSub(cfg, t, 0, d, k)), k)
  {
    if k > 0 {
      var o := OpeningOf(cfg, t, d);
      var above := PathSub(cfg, t, 0, d, k - 1);
      var below := PathSub(cfg, t, 0, d, k);
      PathOccupied(cfg, t, d, k - 1);
      PathOccupied(cfg, t, d, k);
      PathSubStep(cfg, t, 0, d, k - 1);
      BranchAt(cfg, t, 0, d, k - 1);
      RowDigest(cfg, above, k - 1);
      assert o.branch[k - 1][o.positions[k - 1]] == Some(Digest(cfg, below));
      VerifyPath(cfg, t, d, k - 1);
    }
  }

  /** Every subtree on the path to an occupied position is non-empty. */
  lemma PathOccupied<T>(cfg: Config<T>, t: Subtree<T>, d: seq<nat>, k: nat)
    requires cfg.Wf() && k <= cfg.height && WellFormed(cfg, t, 0) && WellFormedIndices(cfg, d)
    requires Get(cfg, t, 0, Relative(cfg, d, 0)).Some?
    ensures PathSub(cfg, t, 0, d, k) != Empty
  {
    PathHoldsLeaf(cfg, t, d, k);
  }

  /** The opening of an occupied position verifies exactly the item stored
      there: the stored item is accepted, and no other item is. */
  lemma OpeningVerifies<T>(cfg: Config<T>, t: Subtree<T>, d: seq<nat>, x: T)
    requires cfg.Wf() && WellFormed(cfg, t, 0) && WellFormedIndices(cfg, d)
    requires Get(cfg, t, 0, Relative(cfg, d, 0)).Some?
    ensures VerifyFrom(cfg, OpeningOf(cfg, t, d), x, cfg.height) <==> Some(x) == Get(cfg, t, 0, Relative(cfg, d, 0))
  {
    var leaf := PathSub(cfg, t, 0, d, cfg.height);
    PathHoldsLeaf(cfg, t, d, cfg.height);
    VerifyPath(cfg, t, d, cfg.height);
    BranchAt(cfg, t, 0, d, cfg.height - 1);
    PathSubStep(cfg, t, 0, d, cfg.height - 1);
  }
}

/** Concrete uses of the tree: the situations the repository's own unit
    tests describe, stated as methods whose contracts give the outcomes
    those tests expect.
 */
module Scenarios {
  import opened Merkle
  import opened Sparse
  import MerkleNode
  import Openings
  import WalkOrder
  import Trees

  /** The sum of some small numbers. */
  function Sum(items: seq<int>): int
  {
    if items == [] then 0 else items[0] + Sum(items[1..])
  }

  /** A tree of height 3 and arity 2 whose items are numbers aggregated by
      their sum, with 0 for an empty subtree. */
  function SumConfig(): (cfg: Config<int>)
    ensures cfg.Wf() && cfg.Cap(0) == 8 && cfg.agg.empty == 0
  {
    Config(3, 2, Aggregator(0, Sum))
  }

  /** Inserting at 5, 6 and again at 5 leaves two leaves. */
  method TreeInsertion() returns (len: nat)
    ensures len == 2
  {
    var tree := new Trees.Tree(SumConfig());
    tree.Insert(5, 42);
    tree.Insert(6, 42);
    tree.Insert(5, 42);
    len := tree.Len();
  }

  /** After the same three inserts, removing 5 and the unoccupied 4 leaves
      one leaf (the latter removal giving nothing back); removing 6 then
      empties the tree, whose root is the empty value again. */
  method TreeDeletion() returns (missing: Option<int>, len: nat, empty: bool, root: int)
    ensures missing.None? && len == 1 && empty && root == 0
  {
    var tree := new Trees.Tree(SumConfig());
    tree.Insert(5, 42);
    tree.Insert(6, 42);
    tree.Insert(5, 42);
    var removed := tree.Remove(5);
    missing := tree.Remove(4);
    len := tree.Len();
    removed := tree.Remove(6);
    empty := tree.IsEmpty();
    root := tree.Root();
  }

  /** The concatenation of some strings, leftmost first. */
  function Concat(items: seq<string>): string
  {
    if items == [] then "" else items[0] + Concat(items[1..])
  }

  /** The one-letter string of the `i`-th capital letter. */
  function Letter(i: nat): (s: string)
    requires i < 26
    ensures |s| == 1 && s[0] as int == 'A' as int + i
  {
    [('A' as int + i) as char]
  }

  /** A tree of height 4 and arity 2 whose items are strings aggregated by
      concatenation, with the empty string for an empty subtree. */
  function LetterConfig(): (cfg: Config<string>)
    ensures cfg.Wf() && cfg.Cap(0) == 16
  {
    Config(4, 2, Aggregator("", Concat))
  }

  /** The opening of an occupied position verifies the item stored there
      and rejects any other item. */
  method CheckOpening<T(==)>(tree: Trees.Tree<T>, position: nat, stored: T, other: T) returns (ok: bool)
    requires tree.Valid() && position in tree.Contents() && tree.Contents()[position] == stored
    requires other != stored
    ensures ok
  {
    var opening := tree.Opening(position);
    var own := Openings.Verify(tree.cfg, opening.value, stored);
    var next := Openings.Verify(tree.cfg, opening.value, other);
    ok := own && !next;
  }

  /** The opening of a position holding the `i`-th letter verifies that
      letter and not the next one (the letter after `P` being `A`). */
  method CheckLetter(tree: Trees.Tree<string>, i: nat) returns (ok: bool)
    requires i < 16 && tree.Valid()
    requires i in tree.Contents() && tree.Contents()[i] == Letter(i)
    ensures ok
  {
    assert Letter(i)[0] != Letter((i + 1) % 16)[0];
    ok := CheckOpening(tree, i, Letter(i), Letter((i + 1) % 16));
  }

  /** With the sixteen letters `A` to `P` stored at positions 0 to 15, the
      opening of each position verifies its own letter and not the next. */
  method OpeningLetters() returns (ok: bool)
    ensures ok
  {
    var tree := new Trees.Tree(LetterConfig());
    var i := 0;
    while i < 16
      invariant i <= 16 && tree.Valid() && tree.cfg == LetterConfig()
      invariant forall j | 0 <= j < i :: j in tree.Contents() && tree.Contents()[j] == Letter(j)
    {
      tree.Insert(i, Letter(i));
      i := i + 1;
    }
    ok := true;
    i := 0;
    while i < 16
      invariant i <= 16 && ok && tree.Valid() && tree.cfg == LetterConfig()
      invariant forall j | 0 <= j < 16 :: j in tree.Contents() && tree.Contents()[j] == Letter(j)
    {
      ok := CheckLetter(tree, i);
      i := i + 1;
    }
  }

  /** The largest of some numbers, 0 for none. */
  function Max(items: seq<nat>): (m: nat)
    ensures forall i | 0 <= i < |items| :: items[i] <= m
    ensures items != [] ==> m in items
    ensures items == [] ==> m == 0
  {
    if items == [] then 0
    else if Max(items[1..]) < items[0] then items[0]
    else Max(items[1..])
  }

  /** A tree of height 2 and arity 2 whose items are numbers aggregated by
      their maximum, with 0 for an empty subtree. */
  function MaxConfig(): (cfg: Config<nat>)
    ensures cfg.Wf() && cfg.Cap(0) == 4 && cfg.ChildCap(0) == 2
  {
    Config(2, 2, Aggregator(0, Max))
  }

  /** The walker of the walk tests: it enters a subtree whose maximum
      exceeds 6. */
  function LargerThanSix(x: nat): bool
  {
    x > 6
  }

  /** A well-formed subtree of `MaxConfig` is determined by its leaves:
      it is `expected` when it holds what `expected` holds. */
  lemma ShapeOf(t: Subtree<nat>, expected: Subtree<nat>, leaves: map<nat, nat>)
    requires WellFormed(MaxConfig(), t, 0) && WellFormed(MaxConfig(), expected, 0)
    requires Leaves(MaxConfig(), t, 0) == leaves
    requires forall r: nat | r < 4 :: Get(MaxConfig(), expected, 0, r) == Entry(leaves, r)
    ensures t == expected
  {
    var cfg := MaxConfig();
    forall r: nat | r < 4 ensures Get(cfg, t, 0, r) == Get(cfg, expected, 0, r) {
      assert r in leaves <==> Get(cfg, t, 0, r).Some?;
    }
    Canonical(cfg, t, expected, 0);
  }

  /** The node at height 1 holding `a` and `b` is well formed, and its
      item is the larger of the two. */
  lemma PairDigest(a: Option<nat>, b: Option<nat>)
    requires a.Some? || b.Some?
    ensures WellFormed(MaxConfig(), Pair(a, b), 1)
    ensures Digest(MaxConfig(), Pair(a, b)) == Max(Values(a) + Values(b))
  {
    var cfg := MaxConfig();
    var node := Pair(a, b);
    assert !AllEmpty(node.kids) by {
      if a.Some? { assert !node.kids[0].Empty?; } else { assert !node.kids[1].Empty?; }
    }
    var digests := seq(|node.kids|, i requires 0 <= i < |node.kids| => Digest(cfg, node.kids[i]));
    assert digests == [Digest(cfg, node.kids[0]), Digest(cfg, node.kids[1])];
    if a.Some? && b.Some? {
      assert digests == Values(a) + Values(b);
    } else if a.Some? {
      assert digests == [a.value, 0];
      assert Max([0]) == 0;
    } else {
      assert digests == [0, b.value];
      assert Values(a) + Values(b) == [b.value];
      assert Max([b.value]) == b.value;
    }
  }

  /** A walk with `LargerThanSix` yields the leaf in slot `j` of a node at
      height 1 exactly when it exceeds 6. */
  lemma SlotHitsOfLeaf(node: Subtree<nat>, j: nat)
    requires node.Inner? && |node.kids| == 2 && j < 2 && !node.kids[j].Inner?
    ensures WalkOrder.SlotHits(MaxConfig(), LargerThanSix, node, 1, j) ==
      if node.kids[j].Leaf? && node.kids[j].value > 6 then [(j, node.kids[j].value)] else []
  {
    var cfg := MaxConfig();
    assert cfg.ChildCap(1) == 1;
    if node.kids[j].Leaf? {
      assert WalkOrder.Hits(cfg, LargerThanSix, node.kids[j], 2) == [(0, node.kids[j].value)];
    }
  }

  /** The leaf `a` at `position` as a walk with `LargerThanSix` yields it:
      once if present and exceeding 6, otherwise not at all. */
  function Yield(a: Option<nat>, position: nat): seq<(nat, nat)>
  {
    if a.Some? && a.value > 6 then [(position, a.value)] else []
  }

  /** What a walk with `LargerThanSix` yields below a node at height 1: its
      leaves exceeding 6, in slot order. */
  lemma PairHits(a: Option<nat>, b: Option<nat>)
    ensures WalkOrder.Hits(MaxConfig(), LargerThanSix, Pair(a, b), 1) == Yield(a, 0) + Yield(b, 1)
  {
    var cfg := MaxConfig();
    var node := Pair(a, b);
    assert WalkOrder.SubHits(cfg, LargerThanSix, node, 1, 2) == [];
    assert WalkOrder.SubHits(cfg, LargerThanSix, node, 1, 1) == WalkOrder.SlotHits(cfg, LargerThanSix, node, 1, 1) + [];
    SlotHitsOfLeaf(node, 0);
    SlotHitsOfLeaf(node, 1);
  }

  /** The node at height 1 holding `a` and `b`. */
  function Pair(a: Option<nat>, b: Option<nat>): Subtree<nat>
  {
    Inner([if a.Some? then Leaf(a.value) else Empty, if b.Some? then Leaf(b.value) else Empty])
  }

  /** The present value, as a sequence of at most one. */
  function Values(a: Option<nat>): seq<nat>
  {
    if a.Some? then [a.value] else []
  }

  /** What a walk with `LargerThanSix` yields below a root of two slots:
      the leaves yielded below each slot whose item exceeds 6, shifted to
      the slot's positions. */
  lemma RootHits(root: Subtree<nat>)
    requires root.Inner? && |root.kids| == 2
    ensures WalkOrder.Hits(MaxConfig(), LargerThanSix, root, 0) ==
      (if root.kids[0] != Empty && Digest(MaxConfig(), root.kids[0]) > 6
       then WalkOrder.Hits(MaxConfig(), LargerThanSix, root.kids[0], 1) else []) +
      (if root.kids[1] != Empty && Digest(MaxConfig(), root.kids[1]) > 6
       then WalkOrder.Shift(WalkOrder.Hits(MaxConfig(), LargerThanSix, root.kids[1], 1), 2) else [])
  {
    var cfg := MaxConfig();
    var hits0 := WalkOrder.Hits(cfg, LargerThanSix, root.kids[0], 1);
    assert WalkOrder.Shift(hits0, 0) == hits0;
    assert WalkOrder.SubHits(cfg, LargerThanSix, root, 0, 2) == [];
    assert WalkOrder.SubHits(cfg, LargerThanSix, root, 0, 1) == WalkOrder.SlotHits(cfg, LargerThanSix, root, 0, 1) + [];
  }

  /** The tree of height 2 holding `a`, `b`, `c` and `d` at positions 0 to 3. */
  function Quad(a: Option<nat>, b: Option<nat>, c: Option<nat>, d: Option<nat>): Subtree<nat>
  {
    Inner([Pair(a, b), Pair(c, d)])
  }

  /** Position `r` of `Quad(a, b, c, d)` holds the `r`-th of them. */
  lemma QuadGet(a: Option<nat>, b: Option<nat>, c: Option<nat>, d: Option<nat>, r: nat)
    requires r < 4
    ensures Get(MaxConfig(), Quad(a, b, c, d), 0, r) == [a, b, c, d][r]
  {
    var cfg := MaxConfig();
    var t := Quad(a, b, c, d);
    assert ChildLocation(cfg, 0, r) == (r / 2, r % 2);
    var kid := t.kids[r / 2];
    assert ChildLocation(cfg, 1, r % 2) == (r % 2, 0);
    assert Get(cfg, t, 0, r) == Get(cfg, kid, 1, r % 2) == Get(cfg, kid.kids[r % 2], 2, 0);
  }

  /** The entry of `leaves` at `r`, if any. */
  function Entry(leaves: map<nat, nat>, r: nat): Option<nat>
  {
    if r in leaves then Some(leaves[r]) else None
  }

  /** A tree of height 2 with both halves occupied is well formed. */
  lemma QuadWellFormed(a: Option<nat>, b: Option<nat>, c: Option<nat>, d: Option<nat>)
    requires (a.Some? || b.Some?) && (c.Some? || d.Some?)
    ensures WellFormed(MaxConfig(), Quad(a, b, c, d), 0)
  {
    var t := Quad(a, b, c, d);
    PairDigest(a, b);
    PairDigest(c, d);
    assert !t.kids[0].Empty?;
  }

  /** Shifting what two adjacent slots yield moves both positions. */
  lemma ShiftYield(c: Option<nat>, d: Option<nat>, offset: nat)
    ensures WalkOrder.Shift(Yield(c, 0) + Yield(d, 1), offset) == Yield(c, offset) + Yield(d, offset + 1)
  {
    var s := Yield(c, 0) + Yield(d, 1);
    var r := WalkOrder.Shift(s, offset);
    if c.Some? && c.value > 6 {
      assert r[0] == (offset, c.value);
    }
    if d.Some? && d.value > 6 {
      assert r[|r| - 1] == (offset + 1, d.value);
    }
  }

  /** A well-formed tree of `MaxConfig` holding what `Quad(a, b, c, d)`
      holds is that tree. */
  lemma QuadShape(t: Subtree<nat>, a: Option<nat>, b: Option<nat>, c: Option<nat>, d: Option<nat>, leaves: map<nat, nat>)
    requires (a.Some? || b.Some?) && (c.Some? || d.Some?)
    requires WellFormed(MaxConfig(), t, 0) && Leaves(MaxConfig(), t, 0) == leaves
    requires Entry(leaves, 0) == a && Entry(leaves, 1) == b && Entry(leaves, 2) == c && Entry(leaves, 3) == d
    ensures t == Quad(a, b, c, d)
  {
    QuadWellFormed(a, b, c, d);
    forall r: nat | r < 4 ensures Get(MaxConfig(), Quad(a, b, c, d), 0, r) == Entry(leaves, r) {
      QuadGet(a, b, c, d, r);
      assert r == 0 || r == 1 || r == 2 || r == 3;
    }
    ShapeOf(t, Quad(a, b, c, d), leaves);
  }

  /** What a walk with `LargerThanSix` yields in a tree of height 2 with
      both halves occupied: the leaves exceeding 6 of each half whose
      largest leaf exceeds 6. */
  lemma QuadHits(a: Option<nat>, b: Option<nat>, c: Option<nat>, d: Option<nat>)
    requires (a.Some? || b.Some?) && (c.Some? || d.Some?)
    ensures WalkOrder.Hits(MaxConfig(), LargerThanSix, Quad(a, b, c, d), 0) ==
      (if Max(Values(a) + Values(b)) > 6 then Yield(a, 0) + Yield(b, 1) else []) +
      (if Max(Values(c) + Values(d)) > 6 then Yield(c, 2) + Yield(d, 3) else [])
  {
    PairDigest(a, b);
    PairDigest(c, d);
    PairHits(a, b);
    PairHits(c, d);
    RootHits(Quad(a, b, c, d));
    ShiftYield(c, d, 2);
  }

  /** The tree of the full walk test: 2, 8, 16 and 4 at positions 0 to 3. */
  lemma FullTreeHits()
    ensures WalkOrder.Hits(MaxConfig(), LargerThanSix, Quad(Some(2), Some(8), Some(16), Some(4)), 0) == [(1, 8), (2, 16)]
  {
    QuadHits(Some(2), Some(8), Some(16), Some(4));
    assert Max([2, 8]) == 8 && Max([16, 4]) == 16 by {
      assert Max([8]) == 8 && Max([4]) == 4;
    }
  }

  /** The tree of the partial walk test: 8 at position 1 and 4 at 3. */
  lemma PartialTreeHits()
    ensures WalkOrder.Hits(MaxConfig(), LargerThanSix, Quad(None, Some(8), None, Some(4)), 0) == [(1, 8)]
  {
    QuadHits(None, Some(8), None, Some(4));
    assert Max([8]) == 8 && Max([4]) == 4;
  }

  /** A walk yields nothing in an empty tree of `MaxConfig`. */
  lemma EmptyTreeHits()
    ensures WalkOrder.Hits(MaxConfig(), LargerThanSix, Empty, 0) == []
  {
    var cfg := MaxConfig();
    assert WalkOrder.SubHits(cfg, LargerThanSix, Empty, 0, 2) == [];
    assert WalkOrder.SubHits(cfg, LargerThanSix, Empty, 0, 1) == [];
  }

  /** Walking the tree holding 2, 8, 16 and 4 with `LargerThanSix` yields
      8, then 16, then nothing. */
  method FullTreeWalk() returns (first: Option<nat>, second: Option<nat>, third: Option<nat>)
    ensures first == Some(8) && second == Some(16) && third.None?
  {
    var tree := new Trees.Tree(MaxConfig());
    tree.Insert(0, 2);
    tree.Insert(1, 8);
    tree.Insert(2, 16);
    tree.Insert(3, 4);
    MerkleNode.ValidWellFormed(tree.cfg, tree.root, 0);
    QuadShape(MerkleNode.Abs(tree.cfg, tree.root, 0), Some(2), Some(8), Some(16), Some(4), map[0 := 2, 1 := 8, 2 := 16, 3 := 4]);
    FullTreeHits();
    var walk := tree.Walk(LargerThanSix);
    first := walk.Next();
    second := walk.Next();
    third := walk.Next();
  }

  /** Walking the tree holding 8 at 1 and 4 at 3 with `LargerThanSix`
      yields 8, then nothing. */
  method PartialTreeWalk() returns (first: Option<nat>, second: Option<nat>)
    ensures first == Some(8) && second.None?
  {
    var tree := PartialTree();
    PartialTreeHits();
    var walk := tree.Walk(LargerThanSix);
    first := walk.Next();
    second := walk.Next();
  }

  /** The tree of `MaxConfig` holding 8 at 1 and 4 at 3. */
  method PartialTree() returns (tree: Trees.Tree<nat>)
    ensures fresh(tree) && tree.Valid() && tree.cfg == MaxConfig()
    ensures MerkleNode.Abs(tree.cfg, tree.root, 0) == Quad(None, Some(8), None, Some(4))
  {
    tree := new Trees.Tree(MaxConfig());
    tree.Insert(1, 8);
    tree.Insert(3, 4);
    MerkleNode.ValidWellFormed(tree.cfg, tree.root, 0);
    QuadShape(MerkleNode.Abs(tree.cfg, tree.root, 0), None, Some(8), None, Some(4), map[1 := 8, 3 := 4]);
  }

  /** Walking an empty tree yields nothing. */
  method EmptyTreeWalk() returns (first: Option<nat>)
    ensures first.None?
  {
    var tree := new Trees.Tree(MaxConfig());
    MerkleNode.ValidWellFormed(tree.cfg, tree.root, 0);
    EmptyIffNoLeaves(tree.cfg, MerkleNode.Abs(tree.cfg, tree.root, 0), 0);
    EmptyTreeHits();
    var walk := tree.Walk(LargerThanSix);
    first := walk.Next();
  }
}

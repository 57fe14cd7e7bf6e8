/** A resumable walk through the leaves of a tree: an iterator that keeps,
    per level, the child it descended into (`path`) and the slot it is
    looking at (`indices`), and on each step yields the next leaf in the
    order of `WalkOrder.Hits`.
 */
module Walks {
  import opened Merkle
  import opened Sparse
  import MerkleNode
  import opened WalkOrder

  type Node<T> = MerkleNode.Node<T>

  /** From level `k` down, the walk holds no position: inner levels have no
      child on the path and the cursor over the leaves is at slot 0. */
  predicate Fresh<T>(cfg: Config<T>, path: seq<Option<Node<T>>>, indices: seq<nat>, k: nat)
  {
    && cfg.height > 0 && |path| == cfg.height && |indices| == cfg.height
    && (forall j | k <= j < cfg.height - 1 :: path[j].None?)
    && (k < cfg.height ==> indices[cfg.height - 1] == 0)
  }

  /** The levels above `h` are as in `path0` and `indices0`. */
  ghost predicate SameAbove<T>(path: seq<Option<Node<T>>>, indices: seq<nat>, path0: seq<Option<Node<T>>>, indices0: seq<nat>, h: nat)
  {
    && |path| == |path0| && |indices| == |indices0|
    && forall j | 0 <= j < h && j < |path| && j < |indices| :: path[j] == path0[j] && indices[j] == indices0[j]
  }

  /** The walk state from level `h` down is consistent for `node` at `h`:
      the leaf cursor is at most `A`; an inner level either holds nothing
      (and nothing below it either) or holds the child at its index, which
      the walker accepted and whose own state is consistent. */
  ghost predicate StateOk<T>(cfg: Config<T>, walker: T -> bool, path: seq<Option<Node<T>>>, indices: seq<nat>, node: Node<T>, h: nat)
    decreases cfg.height - h
  {
    && |path| == cfg.height && |indices| == cfg.height && h < cfg.height
    && (h == cfg.height - 1 ==> indices[h] <= cfg.arity)
    && (h < cfg.height - 1 ==>
         if path[h].None? then Fresh(cfg, path, indices, h + 1)
         else
           && indices[h] < cfg.arity && indices[h] < |node.children|
           && node.children[indices[h]] == path[h]
           && walker(Digest(cfg, MerkleNode.Abs(cfg, path[h].value, h + 1)))
           && StateOk(cfg, walker, path, indices, path[h].value, h + 1))
  }

  /** The leaves still to come from the walk below `node` at `h`, in order,
      with positions relative to `node`: what is left of the leaf row after
      the cursor; everything below a level with no child on the path; or
      what is left below the child on the path followed by everything after
      it. */
  ghost function PendingOf<T>(cfg: Config<T>, walker: T -> bool, path: seq<Option<Node<T>>>, indices: seq<nat>, node: Node<T>, h: nat): seq<(nat, T)>
    decreases cfg.height - h
  {
    if h >= cfg.height || |path| != cfg.height || |indices| != cfg.height then []
    else
      var t := MerkleNode.Abs(cfg, node, h);
      if h == cfg.height - 1 then SubHits(cfg, walker, t, h, indices[h])
      else if path[h].None? then Hits(cfg, walker, t, h)
      else
        Shift(PendingOf(cfg, walker, path, indices, path[h].value, h + 1), indices[h] * cfg.ChildCap(h))
        + SubHits(cfg, walker, t, h, indices[h] + 1)
  }

  /** A state holding no position below `h` is consistent, and everything
      below `node` is still to come. */
  lemma FreshPending<T>(cfg: Config<T>, walker: T -> bool, path: seq<Option<Node<T>>>, indices: seq<nat>, node: Node<T>, h: nat)
    requires Fresh(cfg, path, indices, h) && h < cfg.height
    ensures StateOk(cfg, walker, path, indices, node, h)
    ensures PendingOf(cfg, walker, path, indices, node, h) == Hits(cfg, walker, MerkleNode.Abs(cfg, node, h), h)
  {
  }

  /** Taking the first leaf of a child's pending leaves, shifted to the
      child's slot, takes the first of the parent's. */
  lemma PopShift<T>(q: seq<(nat, T)>, offset: nat, rest: seq<(nat, T)>)
    requires |q| > 0
    ensures (Shift(q, offset) + rest)[0].1 == q[0].1
    ensures (Shift(q, offset) + rest)[1..] == Shift(q[1..], offset) + rest
  {
    assert Shift(q, offset)[1..] == Shift(q[1..], offset);
  }

  /** The child in slot `i` of a valid node is valid, holds slot `i`'s
      content, and at the leaves holds its item. */
  lemma PresentChild<T>(cfg: Config<T>, node: Node<T>, h: nat, i: nat)
    requires MerkleNode.Valid(cfg, node, h) && h < cfg.height && i < cfg.arity && node.children[i].Some?
    ensures Slots(cfg, MerkleNode.Abs(cfg, node, h)) == MerkleNode.Kids(cfg, node, h)
    ensures var c := node.children[i].value;
      && MerkleNode.Valid(cfg, c, h + 1)
      && MerkleNode.Abs(cfg, c, h + 1) == Slots(cfg, MerkleNode.Abs(cfg, node, h))[i] != Empty
      && (h + 1 < cfg.height || c.item.Some?)
  {
    MerkleNode.SlotsAbs(cfg, node, h);
  }

  /** Putting the accepted child in slot `i` on the path gives the child a
      consistent state with everything below it to come, and the leaves
      from slot `i` on are the child's followed by those after it. */
  lemma Enter<T>(cfg: Config<T>, walker: T -> bool, path: seq<Option<Node<T>>>, indices: seq<nat>,
                 node: Node<T>, h: nat, i: nat, p: seq<(nat, T)>)
    requires MerkleNode.Valid(cfg, node, h) && h < cfg.height - 1 && i < cfg.arity
    requires Fresh(cfg, path, indices, h + 1) && node.children[i].Some?
    requires Takes(cfg, walker, MerkleNode.Abs(cfg, node, h), i)
    requires p == SubHits(cfg, walker, MerkleNode.Abs(cfg, node, h), h, i)
    ensures var c := node.children[i].value;
      var path', indices' := path[h := node.children[i]], indices[h := i];
      && MerkleNode.Valid(cfg, c, h + 1)
      && walker(Digest(cfg, MerkleNode.Abs(cfg, c, h + 1)))
      && StateOk(cfg, walker, path', indices', c, h + 1)
      && p == Shift(PendingOf(cfg, walker, path', indices', c, h + 1), i * cfg.ChildCap(h))
              + SubHits(cfg, walker, MerkleNode.Abs(cfg, node, h), h, i + 1)
  {
    EnterState(cfg, walker, path, indices, node, h, i);
    EnterPending(cfg, walker, path, indices, node, h, i, p);
  }

  /** The accepted child entered at slot `i` is valid, accepted, and in a
      consistent state. */
  lemma EnterState<T>(cfg: Config<T>, walker: T -> bool, path: seq<Option<Node<T>>>, indices: seq<nat>,
                      node: Node<T>, h: nat, i: nat)
    requires MerkleNode.Valid(cfg, node, h) && h < cfg.height - 1 && i < cfg.arity
    requires Fresh(cfg, path, indices, h + 1) && node.children[i].Some?
    requires Takes(cfg, walker, MerkleNode.Abs(cfg, node, h), i)
    ensures var c := node.children[i].value;
      && MerkleNode.Valid(cfg, c, h + 1)
      && walker(Digest(cfg, MerkleNode.Abs(cfg, c, h + 1)))
      && StateOk(cfg, walker, path[h := node.children[i]], indices[h := i], c, h + 1)
  {
    PresentChild(cfg, node, h, i);
    FreshPending(cfg, walker, path[h := node.children[i]], indices[h := i], node.children[i].value, h + 1);
  }

  /** The leaves from slot `i` on are those still to come below the entered
      child, shifted to its slot, followed by those after it. */
  lemma EnterPending<T>(cfg: Config<T>, walker: T -> bool, path: seq<Option<Node<T>>>, indices: seq<nat>,
                        node: Node<T>, h: nat, i: nat, p: seq<(nat, T)>)
    requires MerkleNode.Valid(cfg, node, h) && h < cfg.height - 1 && i < cfg.arity
    requires Fresh(cfg, path, indices, h + 1) && node.children[i].Some?
    requires Takes(cfg, walker, MerkleNode.Abs(cfg, node, h), i)
    requires p == SubHits(cfg, walker, MerkleNode.Abs(cfg, node, h), h, i)
    ensures p == Shift(PendingOf(cfg, walker, path[h := node.children[i]], indices[h := i], node.children[i].value, h + 1), i * cfg.ChildCap(h))
                 + SubHits(cfg, walker, MerkleNode.Abs(cfg, node, h), h, i + 1)
  {
    FreshPending(cfg, walker, path[h := node.children[i]], indices[h := i], node.children[i].value, h + 1);
    TakenSlot(cfg, walker, node, h, i);
    MulMonotone(0, i, cfg.ChildCap(h));
  }

  /** A consistent level with a child on the path: the child is the one
      in the slot the cursor is at, it is valid and accepted, its own state
      is consistent, and its leaves still to come precede those after its
      slot. */
  lemma OnPath<T>(cfg: Config<T>, walker: T -> bool, path: seq<Option<Node<T>>>, indices: seq<nat>, node: Node<T>, h: nat)
    requires MerkleNode.Valid(cfg, node, h) && h < cfg.height - 1
    requires StateOk(cfg, walker, path, indices, node, h) && path[h].Some?
    ensures var c, i := path[h].value, indices[h];
      && i < cfg.arity && node.children[i] == Some(c)
      && MerkleNode.Valid(cfg, c, h + 1)
      && walker(Digest(cfg, MerkleNode.Abs(cfg, c, h + 1)))
      && StateOk(cfg, walker, path, indices, c, h + 1)
      && PendingOf(cfg, walker, path, indices, node, h)
         == Shift(PendingOf(cfg, walker, path, indices, c, h + 1), i * cfg.ChildCap(h))
            + SubHits(cfg, walker, MerkleNode.Abs(cfg, node, h), h, i + 1)
  {
    PresentChild(cfg, node, h, indices[h]);
    PendingStep(cfg, walker, path, indices, node, h, indices[h], path[h].value);
  }

  /** The leaves to come below a level with a child on the path. */
  lemma PendingStep<T>(cfg: Config<T>, walker: T -> bool, path: seq<Option<Node<T>>>, indices: seq<nat>,
                       node: Node<T>, h: nat, i: nat, c: Node<T>)
    requires h < cfg.height - 1 && |path| == cfg.height && |indices| == cfg.height
    requires path[h] == Some(c) && indices[h] == i
    ensures PendingOf(cfg, walker, path, indices, node, h)
      == Shift(PendingOf(cfg, walker, path, indices, c, h + 1), i * cfg.ChildCap(h))
         + SubHits(cfg, walker, MerkleNode.Abs(cfg, node, h), h, i + 1)
  {
  }

  /** After the child at slot `i` yielded its first pending leaf, the
      parent has yielded its first pending leaf too. */
  lemma Popped<T>(cfg: Config<T>, walker: T -> bool, path: seq<Option<Node<T>>>, indices: seq<nat>,
                  node: Node<T>, h: nat, i: nat, c: Node<T>, q: seq<(nat, T)>, p: seq<(nat, T)>)
    requires MerkleNode.Valid(cfg, node, h) && h < cfg.height - 1
    requires |path| == cfg.height && |indices| == cfg.height
    requires path[h] == Some(c) && indices[h] == i < cfg.arity && node.children[i] == Some(c)
    requires walker(Digest(cfg, MerkleNode.Abs(cfg, c, h + 1)))
    requires StateOk(cfg, walker, path, indices, c, h + 1)
    requires |q| > 0 && PendingOf(cfg, walker, path, indices, c, h + 1) == q[1..]
    requires p == Shift(q, i * cfg.ChildCap(h)) + SubHits(cfg, walker, MerkleNode.Abs(cfg, node, h), h, i + 1)
    ensures |p| > 0 && p[0].1 == q[0].1
    ensures StateOk(cfg, walker, path, indices, node, h)
    ensures PendingOf(cfg, walker, path, indices, node, h) == p[1..]
  {
    MulMonotone(0, i, cfg.ChildCap(h));
    PendingStep(cfg, walker, path, indices, node, h, i, c);
    PopShift(q, i * cfg.ChildCap(h), SubHits(cfg, walker, MerkleNode.Abs(cfg, node, h), h, i + 1));
  }

  /** Slot `i` is taken: its leaves come first, then those after it. */
  lemma TakenSlot<T>(cfg: Config<T>, walker: T -> bool, node: Node<T>, h: nat, i: nat)
    requires MerkleNode.Valid(cfg, node, h) && h < cfg.height && i < cfg.arity && node.children[i].Some?
    requires Takes(cfg, walker, MerkleNode.Abs(cfg, node, h), i)
    ensures var t := MerkleNode.Abs(cfg, node, h);
      SubHits(cfg, walker, t, h, i) ==
        Shift(Hits(cfg, walker, MerkleNode.Abs(cfg, node.children[i].value, h + 1), h + 1), i * cfg.ChildCap(h))
        + SubHits(cfg, walker, t, h, i + 1)
  {
    PresentChild(cfg, node, h, i);
  }

  /** No slot after the last one. */
  lemma NoSlotsLeft<T>(cfg: Config<T>, walker: T -> bool, node: Node<T>, h: nat)
    requires MerkleNode.Valid(cfg, node, h) && h < cfg.height
    ensures SubHits(cfg, walker, MerkleNode.Abs(cfg, node, h), h, cfg.arity) == []
  {
    MerkleNode.SlotsAbs(cfg, node, h);
  }

  /** A level whose slots have all been tried has nothing left to yield,
      and resetting it leaves no position from it down. */
  lemma Exhausted<T>(cfg: Config<T>, walker: T -> bool, path: seq<Option<Node<T>>>, indices: seq<nat>,
                     node: Node<T>, h: nat, p: seq<(nat, T)>)
    requires MerkleNode.Valid(cfg, node, h) && h < cfg.height - 1
    requires Fresh(cfg, path, indices, h + 1)
    requires p == SubHits(cfg, walker, MerkleNode.Abs(cfg, node, h), h, cfg.arity)
    ensures p == []
    ensures Fresh(cfg, path[h := None], indices[h := 0], h)
  {
    NoSlotsLeft(cfg, walker, node, h);
  }

  /** A walk through the tree whose root is `root`, guided by `walker`. The
      tree is borrowed for the walk's lifetime, so the walk holds a
      snapshot of it. */
  class Walk<T> {
    const cfg: Config<T>
    const root: Node<T>
    const walker: T -> bool
    var path: seq<Option<Node<T>>>
    var indices: seq<nat>

    /** The walk's invariant: a valid tree and a consistent state. */
    ghost predicate Valid()
      reads this
    {
      && cfg.Wf() && MerkleNode.Valid(cfg, root, 0)
      && StateOk(cfg, walker, path, indices, root, 0)
    }

    /** The leaves still to come, with their positions. */
    ghost function Remaining(): seq<(nat, T)>
      reads this
    {
      PendingOf(cfg, walker, path, indices, root, 0)
    }

    /** A new walk holds no position: it will yield every leaf the walker
      leads to. */
    constructor(cfg: Config<T>, root: Node<T>, walker: T -> bool)
      requires cfg.Wf() && MerkleNode.Valid(cfg, root, 0)
      ensures Valid() && this.cfg == cfg && this.root == root && this.walker == walker
      ensures path == seq(cfg.height, _ => None) && indices == seq(cfg.height, _ => 0)
      ensures Remaining() == Hits(cfg, walker, MerkleNode.Abs(cfg, root, 0), 0)
    {
      this.cfg := cfg;
      this.root := root;
      this.walker := walker;
      path := seq(cfg.height, _ => None);
      indices := seq(cfg.height, _ => 0);
      new;
      FreshPending(cfg, walker, path, indices, root, 0);
    }

    /** The first slot from `from` on whose child the walker accepts, or
      `A` if there is none; the item of each present child is read on the
      way. */
    method Scan(node: Node<T>, ghost h: nat, from: nat) returns (i: nat)
      requires MerkleNode.Valid(cfg, node, h) && h < cfg.height && from <= cfg.arity
      ensures from <= i <= cfg.arity
      ensures i < cfg.arity ==> node.children[i].Some? && Takes(cfg, walker, MerkleNode.Abs(cfg, node, h), i)
      ensures forall j | from <= j < i :: !Takes(cfg, walker, MerkleNode.Abs(cfg, node, h), j)
      ensures SubHits(cfg, walker, MerkleNode.Abs(cfg, node, h), h, from) == SubHits(cfg, walker, MerkleNode.Abs(cfg, node, h), h, i)
    {
      MerkleNode.SlotsAbs(cfg, node, h);
      i := from;
      while i < cfg.arity
        invariant from <= i <= cfg.arity
        invariant forall j | from <= j < i :: !Takes(cfg, walker, MerkleNode.Abs(cfg, node, h), j)
      {
        if node.children[i].Some? {
          PresentChild(cfg, node, h, i);
          var item, _ := MerkleNode.Item(cfg, node.children[i].value, h + 1);
          if walker(item) {
            break;
          }
        }
        i := i + 1;
      }
      SkipUntaken(cfg, walker, MerkleNode.Abs(cfg, node, h), h, from, i);
    }

    /** Advances the walk below `node` at level `h`, yielding the next
      leaf below it if there is one. At the leaves' parents the cursor
      moves past the yielded leaf; above them, a level with no child on
      the path first picks one, the walk continues below it and then below
      each later accepted child; a level (and everything below it) that
      runs out is reset, so that the next visit starts afresh. */
    method Advance(node: Node<T>, h: nat) returns (r: Option<T>)
      requires MerkleNode.Valid(cfg, node, h) && h < cfg.height
      requires StateOk(cfg, walker, path, indices, node, h)
      modifies this
      ensures |path| == cfg.height && |indices| == cfg.height
      ensures SameAbove(path, indices, old(path), old(indices), h)
      ensures old(PendingOf(cfg, walker, path, indices, node, h)) == [] ==> r.None? && Fresh(cfg, path, indices, h)
      ensures var p := old(PendingOf(cfg, walker, path, indices, node, h));
        p != [] ==>
          && r == Some(p[0].1)
          && StateOk(cfg, walker, path, indices, node, h)
          && PendingOf(cfg, walker, path, indices, node, h) == p[1..]
      decreases cfg.height - h, 3
    {
      ghost var p := PendingOf(cfg, walker, path, indices, node, h);
      if h == cfg.height - 1 {
        var i := Scan(node, h, indices[h]);
        if i < cfg.arity {
          indices := indices[h := i + 1];
          PresentChild(cfg, node, h, i);
          TakenSlot(cfg, walker, node, h, i);
          var item, _ := MerkleNode.Item(cfg, node.children[i].value, h + 1);
          return Some(item);
        }
        NoSlotsLeft(cfg, walker, node, h);
        indices := indices[h := 0];
        return None;
      }
      if path[h].None? {
        var i := Scan(node, h, 0);
        if i < cfg.arity {
          r := Resume(node, h, i, p);
        } else {
          NoSlotsLeft(cfg, walker, node, h);
          indices := indices[h := cfg.arity - 1];
          r := None;
        }
      } else {
        r := Descend(node, h);
      }
    }

    /** Continues the walk below the child on the path at level `h`, and
      then below each later accepted child, until one yields a leaf or the
      level runs out and is reset. */
    method Descend(node: Node<T>, h: nat) returns (r: Option<T>)
      requires MerkleNode.Valid(cfg, node, h) && h < cfg.height - 1
      requires StateOk(cfg, walker, path, indices, node, h) && path[h].Some?
      modifies this
      ensures |path| == cfg.height && |indices| == cfg.height
      ensures SameAbove(path, indices, old(path), old(indices), h)
      ensures old(PendingOf(cfg, walker, path, indices, node, h)) == [] ==> r.None? && Fresh(cfg, path, indices, h)
      ensures var p := old(PendingOf(cfg, walker, path, indices, node, h));
        p != [] ==>
          && r == Some(p[0].1)
          && StateOk(cfg, walker, path, indices, node, h)
          && PendingOf(cfg, walker, path, indices, node, h) == p[1..]
      decreases cfg.height - h, 2
    {
      ghost var p := PendingOf(cfg, walker, path, indices, node, h);
      OnPath(cfg, walker, path, indices, node, h);
      var c, i0 := path[h].value, indices[h];
      ghost var q := PendingOf(cfg, walker, path, indices, c, h + 1);
      ghost var rest := SubHits(cfg, walker, MerkleNode.Abs(cfg, node, h), h, i0 + 1);
      r := Advance(c, h + 1);
      assert path[h] == Some(c) && indices[h] == i0;
      if r.Some? {
        Popped(cfg, walker, path, indices, node, h, i0, c, q, p);
        return;
      }
      assert q == [] && p == rest;
      var i := Scan(node, h, i0 + 1);
      r := Resume(node, h, i, p);
    }

    /** Continues the walk at level `h` from slot `i`, the first slot on
      or after the one just left whose child the walker accepts: descends
      into each accepted child in turn until one yields a leaf, or resets
      the level when none is left. */
    method Resume(node: Node<T>, h: nat, i: nat, ghost p: seq<(nat, T)>) returns (r: Option<T>)
      requires MerkleNode.Valid(cfg, node, h) && h < cfg.height - 1 && i <= cfg.arity
      requires Fresh(cfg, path, indices, h + 1)
      requires p == SubHits(cfg, walker, MerkleNode.Abs(cfg, node, h), h, i)
      requires i < cfg.arity ==> node.children[i].Some? && Takes(cfg, walker, MerkleNode.Abs(cfg, node, h), i)
      modifies this
      ensures |path| == cfg.height && |indices| == cfg.height
      ensures SameAbove(path, indices, old(path), old(indices), h)
      ensures p == [] ==> r.None? && Fresh(cfg, path, indices, h)
      ensures p != [] ==>
        && r == Some(p[0].1)
        && StateOk(cfg, walker, path, indices, node, h)
        && PendingOf(cfg, walker, path, indices, node, h) == p[1..]
      decreases cfg.height - h, 1
    {
      var i := i;
      while i < cfg.arity
        invariant i <= cfg.arity
        invariant Fresh(cfg, path, indices, h + 1)
        invariant SameAbove(path, indices, old(path), old(indices), h)
        invariant p == SubHits(cfg, walker, MerkleNode.Abs(cfg, node, h), h, i)
        invariant i < cfg.arity ==> node.children[i].Some? && Takes(cfg, walker, MerkleNode.Abs(cfg, node, h), i)
        decreases cfg.arity - i
      {
        r := Visit(node, h, i, p);
        if r.Some? {
          return;
        }
        var next := Scan(node, h, i + 1);
        i := next;
      }
      Exhausted(cfg, walker, path, indices, node, h, p);
      path := path[h := None];
      indices := indices[h := 0];
      r := None;
    }

    /** Puts the accepted child in slot `i` on the path and walks below
      it. */
    method Visit(node: Node<T>, h: nat, i: nat, ghost p: seq<(nat, T)>) returns (r: Option<T>)
      requires MerkleNode.Valid(cfg, node, h) && h < cfg.height - 1 && i < cfg.arity
      requires Fresh(cfg, path, indices, h + 1)
      requires p == SubHits(cfg, walker, MerkleNode.Abs(cfg, node, h), h, i)
      requires node.children[i].Some? && Takes(cfg, walker, MerkleNode.Abs(cfg, node, h), i)
      modifies this
      ensures |path| == cfg.height && |indices| == cfg.height
      ensures SameAbove(path, indices, old(path), old(indices), h)
      ensures r.Some? ==>
        && p != [] && r == Some(p[0].1)
        && StateOk(cfg, walker, path, indices, node, h)
        && PendingOf(cfg, walker, path, indices, node, h) == p[1..]
      ensures r.None? ==>
        && Fresh(cfg, path, indices, h + 1)
        && p == SubHits(cfg, walker, MerkleNode.Abs(cfg, node, h), h, i + 1)
      decreases cfg.height - h, 0
    {
      Enter(cfg, walker, path, indices, node, h, i, p);
      indices := indices[h := i];
      path := path[h := node.children[i]];
      var c := node.children[i].value;
      ghost var q := PendingOf(cfg, walker, path, indices, c, h + 1);
      ghost var rest := SubHits(cfg, walker, MerkleNode.Abs(cfg, node, h), h, i + 1);
      r := Advance(c, h + 1);
      assert path[h] == Some(c) && indices[h] == i;
      if r.Some? {
        Popped(cfg, walker, path, indices, node, h, i, c, q, p);
        return;
      }
      assert q == [] && p == rest;
    }

    /** Yields the next leaf's item, or `None` when the walk is exhausted;
      an exhausted walk is reset and starts again from the first leaf. */
    method Next() returns (r: Option<T>)
      requires Valid()
      modifies this
      ensures Valid()
      ensures old(Remaining()) == [] ==> r.None? && Remaining() == Hits(cfg, walker, MerkleNode.Abs(cfg, root, 0), 0)
      ensures old(Remaining()) != [] ==> r == Some(old(Remaining())[0].1) && Remaining() == old(Remaining())[1..]
    {
      r := Advance(root, 0);
      if r.None? {
        FreshPending(cfg, walker, path, indices, root, 0);
      }
    }
  }
}

/** The order in which a walk visits the leaves of a tree: depth first,
    leftmost child first, entering a child only when the walker accepts its
    item, and yielding a leaf when the walker accepts the leaf's item. The
    root itself is never tested. Positions are relative to the subtree.
 */
module WalkOrder {
  import opened Merkle
  import opened Sparse

  /** Moves every position of `s` by `offset`. */
  function Shift<T>(s: seq<(nat, T)>, offset: nat): (r: seq<(nat, T)>)
    ensures |r| == |s|
    ensures forall i | 0 <= i < |s| :: r[i] == (s[i].0 + offset, s[i].1)
  {
    seq(|s|, i requires 0 <= i < |s| => (s[i].0 + offset, s[i].1))
  }

  /** The walker accepts slot `j` of `t`: it is present and its item passes. */
  predicate Takes<T>(cfg: Config<T>, walker: T -> bool, t: Subtree<T>, j: nat)
  {
    var kids := Slots(cfg, t);
    j < |kids| && kids[j] != Empty && walker(Digest(cfg, kids[j]))
  }

  /** The leaves a walk yields below a subtree at `height`, with their
      positions, in the order it yields them. */
  function Hits<T>(cfg: Config<T>, walker: T -> bool, t: Subtree<T>, height: nat): seq<(nat, T)>
    decreases cfg.height - height, 1, 0
  {
    if height >= cfg.height then
      if t.Leaf? then [(0, t.value)] else []
    else SubHits(cfg, walker, t, height, 0)
  }

  /** The leaves a walk yields below the slots `from` onwards of a subtree
      at `height`. */
  function SubHits<T>(cfg: Config<T>, walker: T -> bool, t: Subtree<T>, height: nat, from: nat): seq<(nat, T)>
    decreases cfg.height - height, 0, |Slots(cfg, t)| - from
  {
    if height >= cfg.height || from >= |Slots(cfg, t)| then []
    else SlotHits(cfg, walker, t, height, from) + SubHits(cfg, walker, t, height, from + 1)
  }

  /** The leaves a walk yields below slot `j` of a subtree at `height`:
      none unless the walker takes the slot, otherwise those below the
      child, moved to the slot's first position. */
  function SlotHits<T>(cfg: Config<T>, walker: T -> bool, t: Subtree<T>, height: nat, j: nat): seq<(nat, T)>
    requires height < cfg.height && j < |Slots(cfg, t)|
    decreases cfg.height - height, 0, 0
  {
    if Takes(cfg, walker, t, j)
    then Shift(Hits(cfg, walker, Slots(cfg, t)[j], height + 1), j * cfg.ChildCap(height))
    else []
  }

  /** The walk reaches leaf `position` of a subtree at `height`: the walker
      accepts every node strictly below the subtree on the path to it,
      the leaf included. */
  ghost predicate Accepted<T>(cfg: Config<T>, walker: T -> bool, t: Subtree<T>, height: nat, position: nat)
    requires cfg.Wf() && height <= cfg.height && position < cfg.Cap(height)
    decreases cfg.height - height
  {
    height == cfg.height ||
      (CapSplit(cfg, height);
       var loc := ChildLocation(cfg, height, position);
       var kids := Slots(cfg, t);
       && loc.0 < |kids|
       && walker(Digest(cfg, kids[loc.0]))
       && Accepted(cfg, walker, kids[loc.0], height + 1, loc.1))
  }

  /** Positions strictly increase along `s`. */
  predicate Ascending<T>(s: seq<(nat, T)>)
  {
    forall i, j | 0 <= i < j < |s| :: s[i].0 < s[j].0
  }

  // ---- Soundness: everything yielded is an accepted, stored leaf ----

  /** Every pair yielded below a subtree is a stored leaf the walk reaches,
      at a position within the subtree. */
  lemma {:induction false} HitsSound<T>(cfg: Config<T>, walker: T -> bool, t: Subtree<T>, height: nat)
    requires cfg.Wf() && height <= cfg.height && WellFormed(cfg, t, height)
    ensures forall e | e in Hits(cfg, walker, t, height) ::
      && e.0 < cfg.Cap(height)
      && Get(cfg, t, height, e.0) == Some(e.1)
      && Accepted(cfg, walker, t, height, e.0)
    decreases cfg.height - height, 1, 0
  {
    if height < cfg.height {
      SubHitsSound(cfg, walker, t, height, 0);
    }
  }

  /** Every pair yielded below slots `from` onwards lies at or after the
      first position of slot `from`. */
  lemma {:induction false} SubHitsSound<T>(cfg: Config<T>, walker: T -> bool, t: Subtree<T>, height: nat, from: nat)
    requires cfg.Wf() && height < cfg.height && WellFormed(cfg, t, height)
    ensures forall e | e in SubHits(cfg, walker, t, height, from) ::
      && from * cfg.ChildCap(height) <= e.0 < cfg.Cap(height)
      && Get(cfg, t, height, e.0) == Some(e.1)
      && Accepted(cfg, walker, t, height, e.0)
    decreases cfg.height - height, 0, |Slots(cfg, t)| - from
  {
    if from < |Slots(cfg, t)| {
      SlotSound(cfg, walker, t, height, from);
      SubHitsSound(cfg, walker, t, height, from + 1);
      MulMonotone(from, from + 1, cfg.ChildCap(height));
    }
  }

  /** Every pair yielded below slot `j` is a stored leaf the walk reaches,
      within the positions of slot `j`. */
  lemma {:induction false} SlotSound<T>(cfg: Config<T>, walker: T -> bool, t: Subtree<T>, height: nat, j: nat)
    requires cfg.Wf() && height < cfg.height && WellFormed(cfg, t, height) && j < |Slots(cfg, t)|
    ensures forall e | e in SlotHits(cfg, walker, t, height, j) ::
      && j * cfg.ChildCap(height) <= e.0 < (j + 1) * cfg.ChildCap(height)
      && e.0 < cfg.Cap(height)
      && Get(cfg, t, height, e.0) == Some(e.1)
      && Accepted(cfg, walker, t, height, e.0)
    decreases cfg.height - height, 0, 0
  {
    if Takes(cfg, walker, t, j) {
      var c := cfg.ChildCap(height);
      var kid := Slots(cfg, t)[j];
      var below := Hits(cfg, walker, kid, height + 1);
      HitsSound(cfg, walker, kid, height + 1);
      MulSucc(j, c);
      forall i | 0 <= i < |below|
        ensures var e := Shift(below, j * c)[i];
          && j * c <= e.0 < (j + 1) * c
          && e.0 < cfg.Cap(height)
          && Get(cfg, t, height, e.0) == Some(e.1)
          && Accepted(cfg, walker, t, height, e.0)
      {
        var q := below[i].0;
        assert below[i] in below;
        var p := GetKid(cfg, t, height, j, q);
        ChildLocationOf(cfg, height, j, q);
      }
    }
  }

  // ---- Order: positions come out strictly ascending ----

  /** Each subtree's hits come out in strictly ascending position order. */
  lemma {:induction false} HitsAscending<T>(cfg: Config<T>, walker: T -> bool, t: Subtree<T>, height: nat)
    requires cfg.Wf() && height <= cfg.height && WellFormed(cfg, t, height)
    ensures Ascending(Hits(cfg, walker, t, height))
    decreases cfg.height - height, 1, 0
  {
    if height < cfg.height {
      SubHitsAscending(cfg, walker, t, height, 0);
    }
  }

  lemma {:induction false} SubHitsAscending<T>(cfg: Config<T>, walker: T -> bool, t: Subtree<T>, height: nat, from: nat)
    requires cfg.Wf() && height < cfg.height && WellFormed(cfg, t, height)
    ensures Ascending(SubHits(cfg, walker, t, height, from))
    decreases cfg.height - height, 0, |Slots(cfg, t)| - from
  {
    if from < |Slots(cfg, t)| {
      var bound := (from + 1) * cfg.ChildCap(height);
      var head := SlotHits(cfg, walker, t, height, from);
      var rest := SubHits(cfg, walker, t, height, from + 1);
      SlotAscending(cfg, walker, t, height, from);
      SubHitsAscending(cfg, walker, t, height, from + 1);
      SlotSound(cfg, walker, t, height, from);
      SubHitsSound(cfg, walker, t, height, from + 1);
      forall i | 0 <= i < |head| ensures head[i].0 < bound {
        assert head[i] in head;
      }
      forall k | 0 <= k < |rest| ensures bound <= rest[k].0 {
        assert rest[k] in rest;
      }
      Concat(head, rest, bound);
    }
  }

  /** The hits below one slot come out in ascending order. */
  lemma {:induction false} SlotAscending<T>(cfg: Config<T>, walker: T -> bool, t: Subtree<T>, height: nat, j: nat)
    requires cfg.Wf() && height < cfg.height && WellFormed(cfg, t, height) && j < |Slots(cfg, t)|
    ensures Ascending(SlotHits(cfg, walker, t, height, j))
    decreases cfg.height - height, 0, 0
  {
    if Takes(cfg, walker, t, j) {
      HitsAscending(cfg, walker, Slots(cfg, t)[j], height + 1);
    }
  }

  /** Two ascending runs, the first wholly below `bound` and the second
      wholly at or above it, make an ascending run. */
  lemma Concat<T>(a: seq<(nat, T)>, b: seq<(nat, T)>, bound: nat)
    requires Ascending(a) && Ascending(b)
    requires forall i | 0 <= i < |a| :: a[i].0 < bound
    requires forall j | 0 <= j < |b| :: bound <= b[j].0
    ensures Ascending(a + b)
  {
    var s := a + b;
    forall i, j | 0 <= i < j < |s| ensures s[i].0 < s[j].0 {
      if j < |a| {
      } else if i >= |a| {
        assert s[i] == b[i - |a|] && s[j] == b[j - |a|];
      } else {
        assert s[j] == b[j - |a|];
      }
    }
  }

  lemma MulSucc(a: nat, c: nat)
    ensures (a + 1) * c == a * c + c
  {
  }

  // ---- Completeness: every accepted stored leaf is yielded ----

  /** Every stored leaf that the walk reaches is yielded. */
  lemma {:induction false} HitsComplete<T>(cfg: Config<T>, walker: T -> bool, t: Subtree<T>, height: nat, position: nat, v: T)
    requires cfg.Wf() && height <= cfg.height && WellFormed(cfg, t, height) && position < cfg.Cap(height)
    requires Get(cfg, t, height, position) == Some(v) && Accepted(cfg, walker, t, height, position)
    ensures (position, v) in Hits(cfg, walker, t, height)
    decreases cfg.height - height, 1, 0
  {
    if height == cfg.height {
      assert position == 0;
    } else {
      SubHitsComplete(cfg, walker, t, height, 0, position, v);
    }
  }

  lemma {:induction false} SubHitsComplete<T>(cfg: Config<T>, walker: T -> bool, t: Subtree<T>, height: nat, from: nat, position: nat, v: T)
    requires cfg.Wf() && height < cfg.height && WellFormed(cfg, t, height) && position < cfg.Cap(height)
    requires Get(cfg, t, height, position) == Some(v) && Accepted(cfg, walker, t, height, position)
    requires from <= ChildLocation(cfg, height, position).0
    ensures (position, v) in SubHits(cfg, walker, t, height, from)
    decreases cfg.height - height, 0, |Slots(cfg, t)| - from
  {
    DeleteStep(cfg, t, height, position);
    if from == ChildLocation(cfg, height, position).0 {
      SlotComplete(cfg, walker, t, height, position, v);
    } else {
      SubHitsComplete(cfg, walker, t, height, from + 1, position, v);
    }
  }

  /** A reached stored leaf is yielded below the slot it lies in. */
  lemma {:induction false} SlotComplete<T>(cfg: Config<T>, walker: T -> bool, t: Subtree<T>, height: nat, position: nat, v: T)
    requires cfg.Wf() && height < cfg.height && WellFormed(cfg, t, height) && position < cfg.Cap(height)
    requires Get(cfg, t, height, position) == Some(v) && Accepted(cfg, walker, t, height, position)
    ensures ChildLocation(cfg, height, position).0 < |Slots(cfg, t)|
    ensures (position, v) in SlotHits(cfg, walker, t, height, ChildLocation(cfg, height, position).0)
    decreases cfg.height - height, 0, 0
  {
    CapSplit(cfg, height);
    var loc := ChildLocation(cfg, height, position);
    DeleteStep(cfg, t, height, position);
    var kid := Slots(cfg, t)[loc.0];
    HitsComplete(cfg, walker, kid, height + 1, loc.1, v);
    var below := Hits(cfg, walker, kid, height + 1);
    var i :| 0 <= i < |below| && below[i] == (loc.1, v);
    assert SlotHits(cfg, walker, t, height, loc.0)[i] == (position, v);
  }

  /** The walk below a subtree yields, in strictly ascending position order,
      exactly the stored leaves it reaches. */
  lemma HitsExactly<T>(cfg: Config<T>, walker: T -> bool, t: Subtree<T>, height: nat, position: nat, v: T)
    requires cfg.Wf() && height <= cfg.height && WellFormed(cfg, t, height)
    ensures Ascending(Hits(cfg, walker, t, height))
    ensures (position, v) in Hits(cfg, walker, t, height) <==>
      && position < cfg.Cap(height)
      && Get(cfg, t, height, position) == Some(v)
      && Accepted(cfg, walker, t, height, position)
  {
    HitsAscending(cfg, walker, t, height);
    HitsSound(cfg, walker, t, height);
    if position < cfg.Cap(height) && Get(cfg, t, height, position) == Some(v) && Accepted(cfg, walker, t, height, position) {
      HitsComplete(cfg, walker, t, height, position, v);
    }
  }

  /** Below the leaves' parents every yielded item passes the walker. */
  lemma HitsPass<T>(cfg: Config<T>, walker: T -> bool, t: Subtree<T>, height: nat)
    requires cfg.Wf() && height < cfg.height && WellFormed(cfg, t, height)
    ensures forall e | e in Hits(cfg, walker, t, height) :: walker(e.1)
  {
    HitsSound(cfg, walker, t, height);
    forall e | e in Hits(cfg, walker, t, height) ensures walker(e.1) {
      LeafPasses(cfg, walker, t, height, e.0, e.1);
    }
  }

  /** A reached leaf's item passes the walker. */
  lemma {:induction false} LeafPasses<T>(cfg: Config<T>, walker: T -> bool, t: Subtree<T>, height: nat, position: nat, v: T)
    requires cfg.Wf() && height < cfg.height && WellFormed(cfg, t, height) && position < cfg.Cap(height)
    requires Get(cfg, t, height, position) == Some(v) && Accepted(cfg, walker, t, height, position)
    ensures walker(v)
    decreases cfg.height - height
  {
    CapSplit(cfg, height);
    var loc := ChildLocation(cfg, height, position);
    DeleteStep(cfg, t, height, position);
    if height + 1 < cfg.height {
      LeafPasses(cfg, walker, t.kids[loc.0], height + 1, loc.1, v);
    }
  }

  // ---- Steps of the scan over a node's slots ----

  /** Slots the walker does not take contribute nothing. */
  lemma {:induction false} SkipUntaken<T>(cfg: Config<T>, walker: T -> bool, t: Subtree<T>, height: nat, from: nat, i: nat)
    requires height < cfg.height && from <= i
    requires forall j | from <= j < i :: !Takes(cfg, walker, t, j)
    ensures SubHits(cfg, walker, t, height, from) == SubHits(cfg, walker, t, height, i)
    decreases i - from
  {
    if from < i {
      SkipUntaken(cfg, walker, t, height, from + 1, i);
    }
  }
}

/** A leaf position as the child index taken at each level on the way down
    from the root, i.e. its base-`A` digits, most significant first.
 */
module Position {
  import opened Merkle
  import opened Sparse

  /** The child index chosen at each of the `H` levels, root first. */
  datatype TreePosition = TreePosition(indices: seq<nat>)

  /** The `count` lowest base-`arity` digits of `n`, most significant
      first; higher digits are dropped, so positions wrap around the tree. */
  function Digits(arity: nat, count: nat, n: nat): (d: seq<nat>)
    requires arity > 0
    ensures |d| == count
    ensures forall i | 0 <= i < count :: d[i] < arity
  {
    if count == 0 then [] else Digits(arity, count - 1, n / arity) + [n % arity]
  }

  /** The number whose base-`arity` digits are `d`, most significant
      first. */
  function Value(arity: nat, d: seq<nat>): nat
  {
    if |d| == 0 then 0 else Value(arity, d[..|d| - 1]) * arity + d[|d| - 1]
  }

  /** A digit sequence is well-formed when it has one digit per level and
      every digit names one of the `A` slots. */
  predicate WellFormedIndices<T>(cfg: Config<T>, d: seq<nat>)
  {
    |d| == cfg.height && forall i | 0 <= i < |d| :: d[i] < cfg.arity
  }

  /** Converts an integer into its position: the loop fills the indices
      from the last level to the first, each the remainder by `A` of what
      is left, dividing by `A` after each. */
  method From<T>(cfg: Config<T>, n: nat) returns (p: TreePosition)
    requires cfg.Wf()
    ensures p.indices == Digits(cfg.arity, cfg.height, n)
  {
    var m := n;
    var indices := seq(cfg.height, _ => 0);
    var i := cfg.height;
    while i > 0
      invariant 0 <= i <= cfg.height && |indices| == cfg.height
      invariant m == n / Capacity(cfg.arity, cfg.height - i)
      invariant indices[i..] == Digits(cfg.arity, cfg.height - i, n)
    {
      i := i - 1;
      DigitsFront(cfg.arity, cfg.height - i - 1, n);
      DivStep(n, cfg.arity, cfg.height - i - 1);
      indices := indices[i := m % cfg.arity];
      m := m / cfg.arity;
    }
    p := TreePosition(indices);
  }

  /** The position with every index 0: the position of leaf 0. */
  function Min<T>(cfg: Config<T>): (p: TreePosition)
    requires cfg.Wf()
    ensures WellFormedIndices(cfg, p.indices)
    ensures p.indices == Digits(cfg.arity, cfg.height, 0)
  {
    ZeroDigits(cfg.arity, cfg.height);
    TreePosition(seq(cfg.height, _ => 0))
  }

  /** The default position is the minimum, the position of leaf 0. */
  function Default<T>(cfg: Config<T>): (p: TreePosition)
    requires cfg.Wf()
    ensures WellFormedIndices(cfg, p.indices)
    ensures p.indices == Digits(cfg.arity, cfg.height, 0)
  {
    Min(cfg)
  }

  /** The position with every index `A - 1`, filled level by level. */
  method Max<T>(cfg: Config<T>) returns (p: TreePosition)
    requires cfg.Wf()
    ensures WellFormedIndices(cfg, p.indices)
    ensures forall i | 0 <= i < cfg.height :: p.indices[i] == cfg.arity - 1
  {
    var indices := seq(cfg.height, _ => 0);
    var h := 0;
    while h < cfg.height
      invariant 0 <= h <= cfg.height && |indices| == cfg.height
      invariant forall i | 0 <= i < h :: indices[i] == cfg.arity - 1
      invariant forall i | h <= i < cfg.height :: indices[i] == 0
    {
      indices := indices[h := cfg.arity - 1];
      h := h + 1;
    }
    p := TreePosition(indices);
  }

  /** The indices of a position, root first: they are the digits of the
      leaf number they denote, most significant first, and index `h` is
      the slot `child_location` picks at height `h` when descending to
      that leaf. */
  function Indices<T>(cfg: Config<T>, p: TreePosition): (d: seq<nat>)
    requires cfg.Wf() && WellFormedIndices(cfg, p.indices)
    ensures d == p.indices
    ensures WellFormedIndices(cfg, d)
    ensures Value(cfg.arity, d) < cfg.Cap(0) && d == Digits(cfg.arity, cfg.height, Value(cfg.arity, d))
    ensures forall h | 0 <= h < cfg.height :: ChildLocation(cfg, h, Relative(cfg, d, h)).0 == d[h]
  {
    ValueBound(cfg.arity, p.indices);
    ValueRoundTrip(cfg.arity, p.indices);
    IndicesDescend(cfg, p.indices);
    p.indices
  }

  /** Descending along well-formed indices takes index `h` at height `h`. */
  lemma IndicesDescend<T>(cfg: Config<T>, d: seq<nat>)
    requires cfg.Wf() && WellFormedIndices(cfg, d)
    ensures forall h | 0 <= h < cfg.height :: ChildLocation(cfg, h, Relative(cfg, d, h)).0 == d[h]
  {
    forall h | 0 <= h < cfg.height
      ensures ChildLocation(cfg, h, Relative(cfg, d, h)).0 == d[h]
    {
      DescendIndices(cfg, d, h);
    }
  }

  // ---- Digits and values ----

  /** One more digit is the next quotient's remainder, put in front. */
  lemma {:induction false} DigitsFront(arity: nat, count: nat, n: nat)
    requires arity > 0
    ensures Digits(arity, count + 1, n) == [(n / Capacity(arity, count)) % arity] + Digits(arity, count, n)
  {
    if count > 0 {
      DigitsFront(arity, count - 1, n / arity);
      DivStep(n, arity, count - 1);
      assert (n / arity) / Capacity(arity, count - 1) == n / Capacity(arity, count) by {
        DivModProduct(n, arity, Capacity(arity, count - 1));
      }
    }
  }

  /** Dividing by `arity^k` and then by `arity` is dividing by
      `arity^(k+1)`. */
  lemma DivStep(n: nat, arity: nat, k: nat)
    requires arity > 0
    ensures n / Capacity(arity, k) / arity == n / Capacity(arity, k + 1)
  {
    CapacityStepLow(arity, k);
    DivModProduct(n, Capacity(arity, k), arity);
  }

  /** The value of the digits of `n` is `n` modulo `arity^count`: the
      conversion wraps around the tree. */
  lemma {:induction false} ValueOfDigits(arity: nat, count: nat, n: nat)
    requires arity > 0
    ensures Value(arity, Digits(arity, count, n)) == n % Capacity(arity, count)
  {
    if count > 0 {
      var d := Digits(arity, count, n);
      assert d[..count - 1] == Digits(arity, count - 1, n / arity);
      ValueOfDigits(arity, count - 1, n / arity);
      DivModProduct(n, arity, Capacity(arity, count - 1));
    }
  }

  /** The value of `count` digits below `arity` is below `arity^count`. */
  lemma {:induction false} ValueBound(arity: nat, d: seq<nat>)
    requires forall i | 0 <= i < |d| :: d[i] < arity
    ensures Value(arity, d) < Capacity(arity, |d|)
  {
    if |d| > 0 {
      var k := |d| - 1;
      ValueBound(arity, d[..k]);
      DigitBound(Value(arity, d[..k]), d[k], arity, Capacity(arity, k));
      MulCommute(arity, Capacity(arity, k));
    }
  }

  /** Value of a sequence with a digit put in front. */
  lemma {:induction false} ValueFront(arity: nat, x: nat, d: seq<nat>)
    ensures Value(arity, [x] + d) == x * Capacity(arity, |d|) + Value(arity, d)
  {
    if |d| > 0 {
      var k := |d| - 1;
      assert ([x] + d)[..|d|] == [x] + d[..k];
      ValueFront(arity, x, d[..k]);
      assert Value(arity, [x] + d) == (x * Capacity(arity, k) + Value(arity, d[..k])) * arity + d[k];
      Distribute(x, Capacity(arity, k), Value(arity, d[..k]), arity, d[k]);
      MulCommute(Capacity(arity, k), arity);
    }
  }

  /** Digits and values are inverse on numbers below `arity^count` and on
      digit sequences of length `count` with every digit below `arity`. */
  lemma DigitsRoundTrip(arity: nat, count: nat, n: nat)
    requires arity > 0 && n < Capacity(arity, count)
    ensures Value(arity, Digits(arity, count, n)) == n
  {
    ValueOfDigits(arity, count, n);
    DivModOf(n, 0, Capacity(arity, count), n);
  }

  lemma {:induction false} ValueRoundTrip(arity: nat, d: seq<nat>)
    requires arity > 0 && forall i | 0 <= i < |d| :: d[i] < arity
    ensures Digits(arity, |d|, Value(arity, d)) == d
  {
    if |d| > 0 {
      var k := |d| - 1;
      var v := Value(arity, d[..k]);
      DivModOf(v * arity + d[k], v, arity, d[k]);
      ValueRoundTrip(arity, d[..k]);
      assert d == d[..k] + [d[k]];
    }
  }

  /** Digit `j` of `n` is its quotient by `arity^(count-1-j)` modulo
      `arity`. */
  lemma {:induction false} DigitAt(arity: nat, count: nat, n: nat, j: nat)
    requires arity > 0 && j < count
    ensures Digits(arity, count, n)[j] == (n / Capacity(arity, count - 1 - j)) % arity
  {
    DigitsFront(arity, count - 1, n);
    if j > 0 {
      DigitAt(arity, count - 1, n, j - 1);
    }
  }

  // ---- Digits and the descent through the tree ----

  /** The position of a leaf relative to the node at `height` on its path,
      given the indices taken from there down. */
  function Relative<T>(cfg: Config<T>, d: seq<nat>, height: nat): (r: nat)
    requires WellFormedIndices(cfg, d) && height <= cfg.height
    ensures r < cfg.Cap(height)
  {
    ValueBound(cfg.arity, d[height..]);
    Value(cfg.arity, d[height..])
  }

  /** Descending from the node at `height` along the indices `d`: the slot
      `child_location` picks is `d[height]`, and the position left is the
      one relative to the next level. */
  lemma DescendIndices<T>(cfg: Config<T>, d: seq<nat>, height: nat)
    requires cfg.Wf() && WellFormedIndices(cfg, d) && height < cfg.height
    ensures ChildLocation(cfg, height, Relative(cfg, d, height)) == (d[height], Relative(cfg, d, height + 1))
  {
    var rest := d[height + 1..];
    assert d[height..] == [d[height]] + rest;
    ValueFront(cfg.arity, d[height], rest);
    CapSplit(cfg, height);
    ChildLocationOf(cfg, height, d[height], Relative(cfg, d, height + 1));
  }

  /** The indices of a position below the capacity are the child indices
      that `child_location` picks level by level when descending with it. */
  lemma IndicesAreChildLocations<T>(cfg: Config<T>, n: nat, h: nat)
    requires cfg.Wf() && n < cfg.Cap(0) && h < cfg.height
    ensures var d := Digits(cfg.arity, cfg.height, n);
      && Relative(cfg, d, h) == n % cfg.Cap(h)
      && ChildLocation(cfg, h, n % cfg.Cap(h)).0 == d[h]
  {
    var d := Digits(cfg.arity, cfg.height, n);
    ValueRoundTrip(cfg.arity, d);
    DigitsRoundTrip(cfg.arity, cfg.height, n);
    SuffixValue(cfg, d, h);
    DescendIndices(cfg, d, h);
  }

  /** The value of the last digits of a number is the number modulo the
      capacity of the levels they cover. */
  lemma SuffixValue<T>(cfg: Config<T>, d: seq<nat>, h: nat)
    requires cfg.Wf() && WellFormedIndices(cfg, d) && h <= cfg.height
    ensures Value(cfg.arity, d[h..]) == Value(cfg.arity, d) % cfg.Cap(h)
  {
    var k := cfg.height - h;
    var v := Value(cfg.arity, d);
    ValueRoundTrip(cfg.arity, d);
    assert Digits(cfg.arity, cfg.height, v) == d;
    DigitsSuffix(cfg.arity, cfg.height, v, h);
    assert d[h..] == Digits(cfg.arity, k, v);
    ValueOfDigits(cfg.arity, k, v);
  }

  /** The last `count - h` digits of `n` are the digits of `n` with only
      that many digits kept. */
  lemma {:induction false} DigitsSuffix(arity: nat, count: nat, n: nat, h: nat)
    requires arity > 0 && h <= count
    ensures Digits(arity, count, n)[h..] == Digits(arity, count - h, n)
  {
    if h > 0 {
      var rest := Digits(arity, count - 1, n);
      DigitsFront(arity, count - 1, n);
      assert Digits(arity, count, n)[h..] == rest[h - 1..];
      DigitsSuffix(arity, count - 1, n, h - 1);
    }
  }

  // ---- Minimum, maximum and ordering ----

  lemma {:induction false} ZeroDigits(arity: nat, count: nat)
    requires arity > 0
    ensures Digits(arity, count, 0) == seq(count, _ => 0)
  {
    if count > 0 {
      ZeroDigits(arity, count - 1);
    }
  }

  /** The maximum is the position of the last leaf, `A^H - 1`. */
  lemma MaxIsLast<T>(cfg: Config<T>)
    requires cfg.Wf()
    ensures Digits(cfg.arity, cfg.height, cfg.Cap(0) - 1) == seq(cfg.height, _ => cfg.arity - 1)
  {
    LastDigits(cfg.arity, cfg.height);
  }

  lemma {:induction false} LastDigits(arity: nat, count: nat)
    requires arity > 0
    ensures Capacity(arity, count) >= 1
    ensures Digits(arity, count, Capacity(arity, count) - 1) == seq(count, _ => arity - 1)
  {
    if count > 0 {
      LastDigits(arity, count - 1);
      var c := Capacity(arity, count - 1);
      var x := Capacity(arity, count) - 1;
      assert x == (c - 1) * arity + (arity - 1) by {
        assert Capacity(arity, count) == arity * c;
        MulCommute(arity, c);
      }
      DivModOf(x, c - 1, arity, arity - 1);
    }
  }

  /** The derived ordering of positions: lexicographic on the indices. */
  predicate LexLess(d: seq<nat>, e: seq<nat>)
    decreases |d|
  {
    |d| > 0 && |e| > 0 && (d[0] < e[0] || (d[0] == e[0] && LexLess(d[1..], e[1..])))
  }

  /** On digit sequences of equal length, the lexicographic order is the
      order of their values. */
  lemma {:induction false} LexLessValue(arity: nat, d: seq<nat>, e: seq<nat>)
    requires |d| == |e|
    requires forall i | 0 <= i < |d| :: d[i] < arity
    requires forall i | 0 <= i < |e| :: e[i] < arity
    requires LexLess(d, e)
    ensures Value(arity, d) < Value(arity, e)
    decreases |d|
  {
    assert d == [d[0]] + d[1..] && e == [e[0]] + e[1..];
    ValueFront(arity, d[0], d[1..]);
    ValueFront(arity, e[0], e[1..]);
    if d[0] < e[0] {
      ValueBound(arity, d[1..]);
      LeadingDigit(d[0], e[0], Capacity(arity, |d| - 1), Value(arity, d[1..]), Value(arity, e[1..]));
    } else {
      LexLessValue(arity, d[1..], e[1..]);
    }
  }

  /** A smaller leading digit outweighs any lower digits. */
  lemma LeadingDigit(x: nat, y: nat, c: nat, r: nat, s: nat)
    requires x < y && r < c
    ensures x * c + r < y * c + s
  {
    MulMonotone(x + 1, y, c);
  }

  /** Two different sequences of equal length are ordered one way or the
      other. */
  lemma {:induction false} LexTotal(d: seq<nat>, e: seq<nat>)
    requires |d| == |e| && d != e
    ensures LexLess(d, e) || LexLess(e, d)
    decreases |d|
  {
    if d[0] == e[0] {
      assert d == [d[0]] + d[1..] && e == [e[0]] + e[1..];
      LexTotal(d[1..], e[1..]);
    }
  }

  /** Positions below the capacity compare like the numbers they convert
      from. */
  lemma PositionOrder<T>(cfg: Config<T>, m: nat, n: nat)
    requires cfg.Wf() && m < cfg.Cap(0) && n < cfg.Cap(0)
    ensures LexLess(Digits(cfg.arity, cfg.height, m), Digits(cfg.arity, cfg.height, n)) <==> m < n
  {
    var dm := Digits(cfg.arity, cfg.height, m);
    var dn := Digits(cfg.arity, cfg.height, n);
    DigitsRoundTrip(cfg.arity, cfg.height, m);
    DigitsRoundTrip(cfg.arity, cfg.height, n);
    if LexLess(dm, dn) {
      LexLessValue(cfg.arity, dm, dn);
    }
    if m < n {
      LexTotal(dm, dn);
      if LexLess(dn, dm) {
        LexLessValue(cfg.arity, dn, dm);
      }
    }
  }
}

/** The crate root of the sparse Merkle tree: the aggregation contract that
    every stored item type provides, the array initialiser used to build
    fixed-size rows, and the capacity of a subtree of a given depth.
 */
module Merkle {

  datatype Option<+T> = None | Some(value: T)

  /** The aggregation contract: the value standing in for an empty subtree,
      and the reduction of the `A` children's items (leftmost child first)
      into the item of their parent. Both are supplied by the user of the
      tree. */
  datatype Aggregator<!T> = Aggregator(empty: T, aggregate: seq<T> -> T)

  /** The compile-time parameters of a tree: its height `H`, its arity `A`
      and the aggregation contract of its item type. */
  datatype Config<!T> = Config(height: nat, arity: nat, agg: Aggregator<T>)
  {
    /** Both parameters are positive, as node construction asserts. */
    predicate Wf() { height > 0 && arity > 0 }

    /** The number of leaf positions below a node at `depth`, the root
        being at depth 0. */
    function Cap(depth: nat): nat
      requires depth <= height
    {
      Capacity(arity, height - depth)
    }

    /** The capacity of each child of a node at `depth`. */
    function ChildCap(depth: nat): nat
      requires depth < height
    {
      Capacity(arity, height - depth - 1)
    }

    /** The aggregation as the tree calls it: always on exactly `A` items,
        the item of child `i` at index `i`. */
    function Combine(items: seq<T>): T
      requires |items| == arity
    {
      agg.aggregate(items)
    }
  }

  /** The instance for the unit type: an empty payload aggregates to itself. */
  function UnitAggregator(): (agg: Aggregator<()>)
    ensures agg.empty == ()
    ensures forall items: seq<()> :: agg.aggregate(items) == agg.empty
  {
    Aggregator((), _ => ())
  }

  /** Builds a row of `n` items, element `i` being `f(i)`, filling it one
      element at a time from the left. */
  method InitArray<T>(n: nat, f: nat -> T) returns (a: seq<T>)
    ensures |a| == n
    ensures forall i | 0 <= i < n :: a[i] == f(i)
  {
    a := [];
    var i := 0;
    while i < n
      invariant 0 <= i <= n
      invariant |a| == i
      invariant forall j | 0 <= j < i :: a[j] == f(j)
    {
      a := a + [f(i)];
      i := i + 1;
    }
  }

  /** `arity` raised to `depth`: the number of leaf positions below a node
      `depth` levels above the leaves. */
  function Capacity(arity: nat, depth: nat): (c: nat)
    ensures arity > 0 ==> c >= 1
  {
    if depth == 0 then 1 else arity * Capacity(arity, depth - 1)
  }

  /** Capacities of stacked subtrees multiply: `a^(m+n) == a^m * a^n`. */
  lemma {:induction false} CapacityAdd(arity: nat, m: nat, n: nat)
    ensures Capacity(arity, m + n) == Capacity(arity, m) * Capacity(arity, n)
  {
    if m > 0 {
      CapacityAdd(arity, m - 1, n);
      assert Capacity(arity, m + n) == arity * Capacity(arity, m - 1 + n);
      MulAssoc(arity, Capacity(arity, m - 1), Capacity(arity, n));
    }
  }

  /** One level more is `arity` times as many positions, counted from the
      leaves' side. */
  lemma CapacityStepLow(arity: nat, depth: nat)
    ensures Capacity(arity, depth + 1) == Capacity(arity, depth) * arity
  {
    CapacityAdd(arity, depth, 1);
  }

  // ---- Arithmetic helpers for the base-`arity` position calculations ----

  lemma MulAssoc(a: nat, b: nat, c: nat)
    ensures a * (b * c) == (a * b) * c
  {
  }

  lemma MulMonotone(a: nat, b: nat, c: nat)
    requires a <= b
    ensures a * c <= b * c
  {
  }

  /** Writing `x` as `q * c + r` with `r < c` determines `q` and `r`. */
  lemma DivModOfSum(q: nat, c: nat, r: nat)
    requires r < c
    ensures (q * c + r) / c == q
    ensures (q * c + r) % c == r
  {
    var x := q * c + r;
    assert x == (x / c) * c + x % c;
    var q', r' := x / c, x % c;
    if q' > q {
      assert q' * c >= (q + 1) * c by { MulMonotone(q + 1, q', c); }
      assert false;
    } else if q' < q {
      assert q * c >= (q' + 1) * c by { MulMonotone(q' + 1, q, c); }
      assert false;
    }
  }

  /** Two decompositions `i * c + q` with remainders below `c` agree only
      when both parts agree. */
  lemma DecompositionUnique(i: nat, q: nat, j: nat, r: nat, c: nat)
    requires q < c && r < c
    requires i * c + q == j * c + r
    ensures i == j && q == r
  {
    DivModOfSum(i, c, q);
    DivModOfSum(j, c, r);
  }

  /** A number below `a * c` has a quotient by `c` below `a`. */
  lemma DivBound(x: nat, c: nat, a: nat)
    requires c > 0 && x < a * c
    ensures x / c < a
  {
    assert x == (x / c) * c + x % c;
    if x / c >= a {
      MulMonotone(a, x / c, c);
      assert false;
    }
  }

  /** A digit below `a` followed by a remainder below `c` stays below
      `a * c`. */
  lemma DigitBound(i: nat, q: nat, c: nat, a: nat)
    requires i < a && q < c
    ensures i * c + q < a * c
  {
    MulMonotone(i + 1, a, c);
  }

  /** Euclidean division by `c`: the quotient is below `a` exactly when the
      number is below `a * c`. */
  lemma DivModFacts(x: nat, c: nat, a: nat)
    requires c > 0
    ensures x == (x / c) * c + x % c && x % c < c
    ensures x < a * c <==> x / c < a
  {
    if x / c < a {
      DigitBound(x / c, x % c, c, a);
    } else {
      MulMonotone(a, x / c, c);
    }
  }

  /** Dividing twice is dividing by the product, and the remainder by the
      product splits into its two digits. */
  lemma DivModProduct(x: nat, b: nat, c: nat)
    requires b > 0 && c > 0
    ensures x / b / c == x / (b * c)
    ensures x % (b * c) == ((x / b) % c) * b + x % b
  {
    var q, r := ProductSplit(x, b, c);
    DivModOf(x, q, b * c, r);
  }

  /** A number written as `q * c + r` with `r < c` has quotient `q` and
      remainder `r`. */
  lemma DivModOf(x: nat, q: nat, c: nat, r: nat)
    requires r < c && x == q * c + r
    ensures x / c == q && x % c == r
  {
    DivModOfSum(q, c, r);
  }

  /** `x` in base `b` then `c`: its quotient by `b * c` and the two low
      digits. */
  lemma ProductSplit(x: nat, b: nat, c: nat) returns (q: nat, r: nat)
    requires b > 0 && c > 0
    ensures q == x / b / c && r == ((x / b) % c) * b + x % b
    ensures x == q * (b * c) + r && r < b * c
  {
    var y := x / b;
    q := y / c;
    var d := y % c;
    var s := x % b;
    r := d * b + s;
    DivModDef(x, b);
    DivModDef(y, c);
    Distribute(q, c, d, b, s);
    DigitBound(d, s, b, c);
    MulCommute(b, c);
  }

  lemma DivModDef(y: nat, c: nat)
    requires c > 0
    ensures y == (y / c) * c + y % c && y % c < c
  {
  }

  lemma Distribute(q: nat, c: nat, d: nat, b: nat, s: nat)
    ensures (q * c + d) * b + s == q * (b * c) + (d * b + s)
  {
    assert (q * c + d) * b == q * c * b + d * b;
    assert q * c * b == q * (b * c);
  }

  lemma MulCommute(a: nat, b: nat)
    ensures a * b == b * a
  {
  }

  /** The quotient of a remainder by a product is the low digit of the
      quotient. */
  lemma ModDiv(x: nat, b: nat, c: nat)
    requires b > 0 && c > 0
    ensures (x % (b * c)) / b == (x / b) % c
  {
    DivModProduct(x, b, c);
    DivModOf(x % (b * c), (x / b) % c, b, x % b);
  }
}

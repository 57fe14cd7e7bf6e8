/** The tree of the first, eagerly hashing version: a root node at height
    `HEIGHT` whose hash is the root of the tree and whose counter is its
    length.
 */
module LegacyTree {
  import opened Merkle
  import opened Sparse
  import opened LegacyNode

  class Tree<T> {
    const p: Params<T>
    var root: Node<T>

    /** The leaf hashes stored so far. */
    ghost function Content(): Subtree<T>
      reads this
    {
      Abs(p, root, p.height)
    }

    /** The tree's invariant: a valid root at the full height. */
    ghost predicate Valid()
      reads this
    {
      LegacyNode.Valid(p, root, p.height)
    }

    /** An empty tree: a new root node. */
    constructor(p: Params<T>)
      ensures Valid() && this.p == p && root == NewNode(p)
      ensures Content() == Empty && Len() == 0 && Root().None?
    {
      this.p := p;
      root := NewNode(p);
      new;
      NewNodeEmpty(p, p.height);
    }

    /** Inserts the leaf hashed from `data` for `position`; the position
      must lie within the capacity unless the tree has height 1, where it
      is not looked at. Every insertion counts, even at a position used
      before. */
    method Insert(position: nat, data: seq<T>)
      requires Valid() && p.height >= 1 && InRange(p, p.height, position)
      modifies this
      ensures Valid()
      ensures Content() == Store(p, old(Content()), p.height, position, p.hasher.hash(data))
      ensures Len() == old(Len()) + 1
      ensures Root().Some?
    {
      root := LegacyNode.Insert(p, root, p.height, position, data);
    }

    /** The root hash: none before the first insertion, and afterwards the
      eager hash of the stored leaves. */
    function Root(): (r: Option<T>)
      reads this
      requires Valid()
      ensures r == Hash(p, Content(), p.height)
      ensures r.None? <==> Len() == 0
    {
      root.hash
    }

    /** The number of insertions so far. */
    function Len(): (n: nat)
      reads this
      requires Valid()
      ensures n == 0 <==> Content() == Empty
    {
      root.numLeaves
    }

    /** Whether nothing was inserted yet. */
    function IsEmpty(): (b: bool)
      reads this
      requires Valid()
      ensures b <==> Len() == 0
      ensures b <==> Root().None?
    {
      Len() == 0
    }

    /** The number of positions, `ARITY^HEIGHT`. */
    function Capacity(): (c: nat)
      reads this
      ensures c == Merkle.Capacity(p.arity, p.height)
      ensures p.height > 1 ==> forall position: nat :: InRange(p, p.height, position) <==> position < c
    {
      Merkle.Capacity(p.arity, p.height)
    }
  }

  /** Above height 1 the root takes the slot `position / ARITY^(HEIGHT-1)`,
      which exists exactly for the positions below the capacity: inserting
      at the capacity itself indexes past the last slot. */
  lemma RootSlot<T>(p: Params<T>, position: nat)
    requires p.height > 1 && p.arity > 0
    ensures position / Merkle.Capacity(p.arity, p.height - 1) < p.arity <==> position < Merkle.Capacity(p.arity, p.height)
  {
    DivModFacts(position, Merkle.Capacity(p.arity, p.height - 1), p.arity);
  }

  /** The wrapping sum of bytes the tests aggregate with: every addition
      wraps around at 256, which gives the plain sum modulo 256. */
  function WrappingSum(items: seq<int>): (r: int)
    ensures 0 <= r < 256
    ensures r == Sum(items) % 256
  {
    if items == [] then 0
    else
      WrapAdd(items[0], Sum(items[1..]));
      (items[0] + WrappingSum(items[1..])) % 256
  }

  /** The plain sum of some numbers. */
  function Sum(items: seq<int>): int
  {
    if items == [] then 0 else items[0] + Sum(items[1..])
  }

  /** Wrapping the second operand first does not change a sum modulo 256. */
  lemma WrapAdd(a: int, b: int)
    ensures (a + b % 256) % 256 == (a + b) % 256
  {
    var q := b / 256;
    assert b == 256 * q + b % 256;
    assert a + b == (a + b % 256) + 256 * q;
  }

  /** The parameters of the tests: height 3, arity 2, a zero of 0 at every
      height and the wrapping sum. */
  function TestParams(): (p: Params<int>)
    ensures p.height == 3 && p.arity == 2
    ensures p.hasher.hash([42]) == 42
  {
    Params(3, 2, Hasher(_ => 0, WrappingSum))
  }

  /** Inserting twice at position 5 counts two insertions, with one leaf
      holding the hash. */
  method TreeInsertion() returns (len: nat, leaf: Option<int>)
    ensures len == 2 && leaf == Some(42)
  {
    var tree := new Tree(TestParams());
    assert tree.Capacity() == 8;
    tree.Insert(5, [42]);
    ghost var once := tree.Content();
    tree.Insert(5, [42]);
    len := tree.Len();
    LookupStore(tree.p, once, 3, 5, 5, 42);
    leaf := Lookup(tree.p, Abs(tree.p, tree.root, 3), 3, 5);
  }
}

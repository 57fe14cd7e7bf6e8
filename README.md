# A verified model of the dusk-network sparse Merkle tree

The repository implements a sparse Merkle tree with a fixed height `H` and
arity `A`, generic over an item type `T` that supplies a value standing in
for an empty subtree and an `aggregate` reducing the `A` items of a node's
children to the node's own item. Leaves live at depth `H`, so the tree
has `A^H` positions. Most of them are vacant, and a vacant subtree is not
allocated at all.

The model covers the following parts:

- the crate root of `dusk-merkle`: the aggregation contract, the unit
  instance, `init_array` and `capacity` (module `Merkle`);
- the canonical node of `dusk-merkle`, which has a lazily memoised item
  cache and `A` optional owned children. Its `new`, `item`,
  `child_location`, `insert` and `remove` are in module `MerkleNode`.
  They are proved against an abstract subtree (module `Sparse`): `Empty`,
  `Leaf(v)` or `Inner(kids)`, with its `Get`, `Put`, `Delete` and `Digest`;
- the tree: a root node plus the ordered set of occupied positions
  (module `Trees`);
- tree positions: the base-`A` digits of a leaf number, root first (module
  `Position`);
- openings, i.e. Merkle proofs: their construction, which fills a row of
  sibling items per level, and their verification (module `Openings`);
- the walk, a resumable depth-first iterator pruned by a predicate on
  items. It is specified by the sequence of hits it must yield (module
  `WalkOrder`) and implemented as a class whose per-level cursor and path
  persist between calls to `Next` (module `Walks`);
- the variant node with one empty value per height (module `HeightNode`);
- the first, eagerly hashing version of the tree, which counts insertions
  (modules `LegacyNode` and `LegacyTree`);
- the unit tests of the tree, the opening and the walk, as methods whose
  contracts give the outcomes the tests expect (module `Scenarios`, and
  `LegacyTree.TreeInsertion`).

Several points of the model deserve a note:

- **Nodes are values.** A node is a recursive value,
  `Node(item: Option<T>, children: seq<Option<Node<T>>>)`, because the
  children are owned boxes that nothing else refers to. The in-place
  updates of the source become functions and methods that return the
  updated node, and the callers store it back: `Trees.Tree` and
  `LegacyTree.Tree` are classes whose `root` field is reassigned.
- **The node invariant.** `MerkleNode.Valid` is the key invariant: every
  cached item equals the `Digest` of its subtree, and every present child
  holds something. `MerkleNode.Abs` gives the abstract subtree of a node.
- **Positions.** `Trees.Tree.Valid` keeps the set of positions equal to
  the set of occupied leaves.
- **The walk's path.** The walk records the node entered at each level as
  a node value, where the source keeps a borrowed reference.
- **Where the versions disagree.** The repository keeps several versions
  of the crate (`dusk-merkle/` and `src/`) that do not line up exactly. For example, `src/tree.rs:39`
  builds its root with an item argument that neither node takes. The model
  follows the node of `dusk-merkle/src/node.rs`:
  - a new tree's root caches the empty value;
  - `root()` and `Opening::new` read the root through the memoised `item()`;
  - removing the last leaf resets the root's cache to the empty value,
    as `src/tree.rs:66-68` does;
  - the empty value of `src/opening.rs` (`T::NULL`) is the same empty value.
- **A new node is stale.** `Node::new` leaves the cache `None`
  (`dusk-merkle/src/node.rs:25-33`); the model follows this, and only the
  tree's root is given the empty value as its cache.

## Model

| member | source | states |
|---|---|---|
| Merkle.UnitAggregator | dusk-merkle/src/lib.rs:35-39 | the unit instance: the empty value is `()` and aggregating any units gives the empty value |
| Merkle.InitArray | dusk-merkle/src/lib.rs:41-58 | the row built has length `n` and element `i` is the closure applied to `i` |
| Merkle.Capacity | dusk-merkle/src/lib.rs:60-66 | a subtree of any depth has at least one position when the arity is positive |
| Merkle.CapacityAdd | dusk-merkle/src/lib.rs:60-66 | `A^(m+n) = A^m * A^n`, the law the child-location arithmetic rests on |
| Sparse.ChildLocation | dusk-merkle/src/node.rs:65-75 | the child position is below the child capacity, `index * childCap + childPos` is the position, and the index is below `A` exactly when the position is below the node's capacity |
| Sparse.ChildLocationOf | dusk-merkle/src/node.rs:65-75 | child location inverts the decomposition: `index * childCap + q` with `q < childCap` gives back `(index, q)` |
| Sparse.Put | dusk-merkle/src/node.rs:77-99 | inserting keeps the subtree well formed and makes it non-empty |
| Sparse.Delete | dusk-merkle/src/node.rs:106-135 | removing keeps the subtree well formed: emptied children are freed |
| Sparse.GetPut | dusk-merkle/src/node.rs:77-99 | after an insert the position holds the new item and every other position is unchanged |
| Sparse.GetDelete | dusk-merkle/src/node.rs:106-135 | after a removal the position is vacant and every other position is unchanged |
| Sparse.DeleteUndoesPut | dusk-merkle/src/node.rs:106-135 | removing what was inserted at a vacant position restores the subtree exactly, so a node holding one leaf becomes empty with every slot absent |
| Sparse.Canonical | dusk-merkle/src/node.rs:119-134 | two well-formed subtrees holding the same items are equal, whatever insertions and removals produced them |
| Sparse.EmptyIffVacant | dusk-merkle/src/node.rs:119-134 | a well-formed subtree is empty exactly when no position holds an item |
| Sparse.Leaves | src/tree.rs:26-29 | the occupied positions of a subtree all lie below its capacity |
| Sparse.LeavesPut | src/tree.rs:48-51 | inserting adds or overwrites exactly one entry of the occupied-position map |
| Sparse.LeavesDelete | src/tree.rs:58-71 | removing drops exactly one entry of the occupied-position map |
| Sparse.EmptyIffNoLeaves | src/tree.rs:113-117 | a well-formed subtree is empty exactly when it has no occupied positions |
| MerkleNode.NewNode | dusk-merkle/src/node.rs:25-33 | a new node is stale and has `A` absent children |
| MerkleNode.NewNodeEmpty | dusk-merkle/src/node.rs:25-33 | a new node holds nothing and satisfies the node invariant at every depth |
| MerkleNode.Item | dusk-merkle/src/node.rs:35-63 | returns the aggregate of the subtree (the empty value when nothing is below), caches it in the node and keeps the node invariant; a node already cached is returned unchanged |
| MerkleNode.ChildItems | dusk-merkle/src/node.rs:42-44 | one entry per slot, present exactly for the present children, each holding the child's digest; the children keep their content and their invariant |
| MerkleNode.Insert | dusk-merkle/src/node.rs:77-99 | the result keeps the node invariant and holds the old content with the item put at the position; a leaf caches the item, an inner node on the path becomes stale, and every slot off the path is unchanged |
| MerkleNode.Remove | dusk-merkle/src/node.rs:106-135 | returns the item at the occupied position; the content becomes the old content with the position deleted; the node is stale, keeps the invariant, and slots off the path are unchanged; the flag is true iff a child slot is still present |
| MerkleNode.RemoveAbove | dusk-merkle/src/node.rs:112-134 | below the leaf height: returns the item at the occupied position, deletes it from the content, drops the child on the path when it has nothing left, keeps the invariant and the other slots, and reports whether any slot is still present (iff content remains) |
| MerkleNode.AnyChild | dusk-merkle/src/node.rs:126-132 | the scan's flag is true exactly when some slot is present |
| Position.Digits | src/position.rs:42-55 | there are `H` digits, each below `A` |
| Position.From | src/position.rs:42-55 | the loop, filling indices from the last level up, produces the base-`A` digits of the number, root first |
| Position.ValueOfDigits | src/position.rs:12-15 | the digits of `n` denote `n mod A^H`, so positions wrap around the tree |
| Position.DigitsRoundTrip | src/position.rs:42-55 | below the capacity, reading the digits back gives the number |
| Position.ValueRoundTrip | src/position.rs:42-55 | every digit sequence below `A` is the digit sequence of its value |
| Position.IndicesAreChildLocations | src/position.rs:47-51 | digit `h` of a position below the capacity is the child index that child location picks at height `h` |
| Position.Indices | src/position.rs:33-36 | returns the position's own indices, root first: they are the base-`A` digits of the leaf number they denote, most significant first, that number is below the capacity, and index `h` is the slot child location picks at height `h` on the way to that leaf |
| Position.Min | src/position.rs:83-85 | the minimum has well-formed indices and is the position of leaf 0 |
| Position.ZeroDigits | src/position.rs:83-85 | the digits of 0 are all 0 |
| Position.Default | src/position.rs:65-69 | the default position is the position of leaf 0: every index is 0 |
| Position.Max | src/position.rs:71-81 | the loop sets every index to `A - 1` |
| Position.MaxIsLast | src/position.rs:71-81 | the maximum is the position of the last leaf, `A^H - 1` |
| Position.LexTotal | src/position.rs:16-25 | the derived order on indices is total on sequences of equal length |
| Position.PositionOrder | src/position.rs:16-25 | for leaves below the capacity, the derived lexicographic order on indices agrees with the order of the numbers |
| Openings.RowDigest | src/opening.rs:70-76 | for a non-empty node, the row of sibling items filled for it (`None` for an absent child, the child's item otherwise), with absent entries read as the empty value, aggregates to the node's own item; this is the step verification takes at each level |
| Openings.Branch | src/opening.rs:83-107 | one row of `A` entries per level from the given depth to the leaves |
| Openings.OpeningOf | src/opening.rs:24-28 | an opening has `H` rows of `A` entries and an index below `A` at each level |
| Openings.Verify | src/opening.rs:56-80 | the loop, scanning from the leaves up and returning false at the first level not holding the carried item, answers exactly the recursive verification |
| Openings.FillOpening | src/opening.rs:83-107 | the levels from `height` down are overwritten with the branch along the indices; the levels above and the root are kept |
| Openings.New | src/opening.rs:33-52 | the opening built from the tree's root item, all-`None` rows and zero indices is the opening of the tree's content at the position |
| Openings.VerifyPath | src/opening.rs:62-77 | the opening verifies, from each level, the digest of the subtree on the path at that level |
| Openings.OpeningVerifies | src/opening.rs:56-80 | for an occupied position, the opening verifies an item exactly when that item is stored there |
| WalkOrder.HitsSound | dusk-merkle/src/walk.rs:45-64 | every hit is a leaf stored at its position whose path, from below the root to the leaf, passes the walker |
| WalkOrder.HitsComplete | dusk-merkle/src/walk.rs:69-80 | every stored leaf whose path passes the walker is a hit |
| WalkOrder.HitsAscending | dusk-merkle/src/walk.rs:87-108 | the hits come in strictly ascending position order |
| WalkOrder.HitsExactly | dusk-merkle/src/walk.rs:38-111 | the hits are, in ascending order, exactly the stored leaves whose paths pass the walker |
| WalkOrder.HitsPass | dusk-merkle/src/walk.rs:50-57 | every item yielded satisfies the walker |
| WalkOrder.LeafPasses | dusk-merkle/src/walk.rs:50-57 | a leaf reached through passing ancestors satisfies the walker itself |
| WalkOrder.SkipUntaken | dusk-merkle/src/walk.rs:92-98 | slots the walker does not enter contribute no hits, so the scan may step over them |
| Walks.FreshPending | dusk-merkle/src/walk.rs:27-34 | a walk with every path entry empty and every cursor 0 has all the hits still to yield |
| Walks.Exhausted | dusk-merkle/src/walk.rs:60-63 | an exhausted level has nothing left to yield and resets its cursor to 0 and its path entry to empty |
| Walks.Walk.constructor | dusk-merkle/src/walk.rs:27-34 | a new walk has every path entry empty and every cursor 0, and has to yield all the hits of the tree |
| Walks.Walk.Scan | dusk-merkle/src/walk.rs:92-98 | the scan stops at the first slot from the cursor on that the walker enters, or at `A`; the slots skipped hold no hits |
| Walks.Walk.Advance | dusk-merkle/src/walk.rs:38-111 | yields the first pending hit below the node at level `h` and leaves the rest pending, or yields nothing and resets the levels from `h` down |
| Walks.Walk.Descend | dusk-merkle/src/walk.rs:69-80 | the first descent below a node yields the first of its pending hits |
| Walks.Walk.Resume | dusk-merkle/src/walk.rs:87-108 | re-entering a level continues with the next sibling the walker enters |
| Walks.Walk.Visit | dusk-merkle/src/walk.rs:87-108 | entering a taken child yields its first hit, or moves on to the next sibling when the child has none |
| Walks.Walk.Next | dusk-merkle/src/walk.rs:121-123 | yields the first remaining hit and drops it; when none remains it yields nothing and the walk restarts |
| Trees.Tree.constructor | src/tree.rs:37-42 | a new tree has no positions, no leaves, and a root caching the empty value |
| Trees.EmptyRoot | src/tree.rs:37-42 | a root caching the empty value with no children satisfies the invariant and holds nothing |
| Trees.Tree.Insert | src/tree.rs:44-51 | the leaves become the old leaves with the position mapped to the item, and the position joins the set; the position must be below the capacity |
| Trees.Tree.Remove | src/tree.rs:58-71 | an unoccupied position gives `None` and changes nothing; an occupied one gives its item and leaves the map and the set without it; a tree left empty caches the empty value at its root |
| Trees.ClearedRoot | src/tree.rs:66-68 | resetting the cache of a root with no leaves to the empty value keeps the invariant |
| Trees.Tree.Root | src/tree.rs:98-100 | the root item is the aggregate of the whole tree, the empty value when the tree is empty; the tree's content is unchanged |
| Trees.Tree.Contains | src/tree.rs:103-105 | true exactly when a leaf is stored at the position |
| Trees.Tree.Len | src/tree.rs:109-111 | the number of stored leaves |
| Trees.Tree.IsEmpty | src/tree.rs:115-117 | true exactly when no leaf is stored, i.e. when the length is 0 |
| Trees.Tree.Capacity | src/tree.rs:121-123 | `A^H`, at least 1, and above every stored position |
| Trees.Tree.Opening | src/tree.rs:74-79 | `None` exactly for an unoccupied position; otherwise the opening of the position, which verifies the stored item and no other |
| Trees.OccupiedDigits | src/opening.rs:95-98 | the digits of an occupied position lead from the root to its leaf, so the descent finds a child at every level |
| Trees.OpeningOfLeaf | src/opening.rs:169-186 | the opening of an occupied position verifies an item exactly when it is the stored one |
| Trees.Tree.Walk | src/tree.rs:88-93 | a new walk over the tree, which will yield the tree's hits in ascending order |
| Scenarios.SumConfig | src/tree.rs:130-141 | the test tree: height 3, arity 2, eight positions, empty value 0 |
| Scenarios.TreeInsertion | src/tree.rs:143-156 | inserting at 5, 6 and 5 gives length 2 |
| Scenarios.TreeDeletion | src/tree.rs:158-182 | removing 5, then the vacant 4 (which gives `None`), leaves length 1; removing 6 leaves an empty tree whose root is the empty value |
| Scenarios.LetterConfig | src/opening.rs:140-156 | the opening test tree: height 4, arity 2, sixteen positions |
| Scenarios.CheckOpening | src/opening.rs:173-186 | the opening of an occupied position verifies the stored item and rejects a different one |
| Scenarios.CheckLetter | src/opening.rs:173-186 | the opening at `i` verifies letter `i` and rejects letter `(i+1) mod 16` |
| Scenarios.OpeningLetters | src/opening.rs:158-188 | with letters A to P at 0 to 15, every opening verifies its own letter and not the next |
| Scenarios.Max | dusk-merkle/src/walk.rs:147-153 | the largest of the items: an upper bound of every item that is one of them, and 0 for no items (`unwrap_or_default`) |
| Scenarios.MaxConfig | dusk-merkle/src/walk.rs:139-155 | the walk test tree: height 2, arity 2, four positions |
| Scenarios.PairDigest | dusk-merkle/src/walk.rs:147-153 | a node of two slots aggregates to the largest of its items |
| Scenarios.FullTreeHits | dusk-merkle/src/walk.rs:163-177 | the hits of the tree holding 2, 8, 16, 4 under "larger than six" are 8 at 1 and 16 at 2 |
| Scenarios.PartialTreeHits | dusk-merkle/src/walk.rs:179-190 | the hits of the tree holding 8 at 1 and 4 at 3 are 8 at 1 only |
| Scenarios.EmptyTreeHits | dusk-merkle/src/walk.rs:212-217 | an empty tree has no hits |
| Scenarios.FullTreeWalk | dusk-merkle/src/walk.rs:163-177 | the walk yields 8, then 16, then nothing |
| Scenarios.PartialTreeWalk | dusk-merkle/src/walk.rs:179-190 | the walk yields 8, then nothing |
| Scenarios.EmptyTreeWalk | dusk-merkle/src/walk.rs:212-217 | the first step of the walk yields nothing |
| HeightNode.NewNode | src/node.rs:46-54 | a new node is stale, has `A` absent children, and holds nothing |
| HeightNode.Strip | src/node.rs:34-38 | forgetting the caches keeps every child slot's presence |
| HeightNode.StripAbs | src/node.rs:34-38 | the caches do not affect a node's content |
| HeightNode.Insert | src/node.rs:96-118 | does what the canonical insert does: with caches forgotten it is the canonical insert; content gets the item at the position; slots off the path unchanged; caches that agree with the per-height aggregate keep agreeing |
| HeightNode.InsertAbove | src/node.rs:106-117 | below the leaf height: the node is left stale, the item goes into the child on the path (a new one if the slot was absent), every other slot is unchanged, and the content gets the item |
| HeightNode.InsertThroughAbsent | src/node.rs:110-117 | through an absent slot, storing puts a new node storing the item into that slot and leaves the node stale |
| HeightNode.Remove | src/node.rs:125-154 | does what the canonical remove does: returns the stored item, deletes it from the content, reports whether a slot is present (iff content remains), keeps slots off the path and cache agreement |
| HeightNode.RemoveAbove | src/node.rs:131-153 | below the leaf height: returns the stored item, leaves the node stale, drops the child when it has nothing left, reports whether any slot is still present (iff content remains), and leaves other slots unchanged |
| HeightNode.ItemAsWritten | src/node.rs:56-82 | the memoised read as written: returns the as-written item, caches it, keeps the content |
| HeightNode.ChildItemsAsWritten | src/node.rs:61-63 | each present child's item is asked for at the parent's height, as written |
| HeightNode.ItemAt | src/node.rs:56-82 | the corrected read: returns the per-height aggregate of the subtree, caches it, keeps the content and the agreement of all caches |
| HeightNode.ChildItemsAt | src/node.rs:61-63 | each present child's item is its per-height aggregate at the next height |
| HeightNode.ChildItemAt | src/node.rs:61-63 | one slot: an item exactly when the child is present, and then the per-height aggregate of that child at the next height, with its caches filled |
| HeightNode.AgreesWhenChildrenCached | src/node.rs:56-82 | the code as written returns the intended item whenever every present child is already cached |
| HeightNode.SameHeightQuirk | src/node.rs:58-77 | for `H = 2`, `A = 2`, empties 0, 10, 20 and one leaf 5 at position 0, the root item is 25 as written and 35 as intended |
| LegacyNode.NewNode | src/lib.rs:38-44 | no insertions, no hash, every slot absent |
| LegacyNode.NewNodeEmpty | src/lib.rs:166-175 | a new node holds nothing and satisfies the node invariant at every height |
| LegacyNode.CountUpdate | src/lib.rs:74-81 | replacing one child changes the sum of the children's counters by the change in that child's counter |
| LegacyNode.Descend | src/lib.rs:57-63 | the child index is below the arity and the child position below the child capacity; together they decompose the position |
| LegacyNode.Store | src/lib.rs:46-82 | storing a leaf hash keeps the shape (leaves at height 1 only) and makes the content non-empty |
| LegacyNode.LookupStore | src/lib.rs:51-72 | after storing at `x`, every position reaching the same height-1 leaf as `x` reads the new hash, and every other position reads what it did before |
| LegacyNode.StoreSameLeaf | src/lib.rs:51-72 | positions with equal quotient by the arity reach the same leaf, so storing at either is the same |
| LegacyNode.Insert | src/lib.rs:46-82 | keeps the node invariant (every present hash eagerly equals the hash of the content, with the parent-height zero for absent slots); the counter grows by one even at a used position; slots off the path are unchanged |
| LegacyNode.InsertAbove | src/lib.rs:57-81 | above height 1: hashes the item into the child on the path (a new one if absent), rehashes eagerly, counts one more leaf, and leaves the other slots unchanged |
| LegacyTree.Tree.constructor | src/lib.rs:101-105 | a new tree holds nothing, has length 0 and no root |
| LegacyTree.Tree.Insert | src/lib.rs:107-117 | the content gets the hash of the data at the position's leaf; the length grows by one; the root becomes present |
| LegacyTree.Tree.Root | src/lib.rs:119-122 | the eager hash of the content; absent exactly when nothing was inserted |
| LegacyTree.Tree.Len | src/lib.rs:124-128 | 0 exactly when the tree holds nothing |
| LegacyTree.Tree.IsEmpty | src/lib.rs:130-134 | true exactly when the length is 0, and exactly when there is no root |
| LegacyTree.Tree.Capacity | src/lib.rs:85-87 | `ARITY^HEIGHT`; above height 1, exactly the positions below it are accepted |
| LegacyTree.RootSlot | src/lib.rs:190-199 | the root's child index exists exactly for positions below the capacity, so inserting at the capacity indexes past the last slot |
| LegacyTree.WrappingSum | src/lib.rs:155-163 | the test hash, a fold of wrapping byte additions: it stays below 256 and equals the plain sum of the items modulo 256 |
| LegacyTree.TestParams | src/lib.rs:147-164 | the test tree: height 3, arity 2; hashing the single byte 42 gives 42 |
| LegacyTree.TreeInsertion | src/lib.rs:177-188 | two inserts at 5 give length 2, and position 5 holds the hash 42 |

## Left out

- Serialization: the rkyv archive, serialize and check-bytes support.
- Concrete hashes and proof systems: the BLAKE3 and Poseidon instances, the
  zero-knowledge gadgets and the benchmarks. `aggregate` and the empty
  values stay uninterpreted parameters.
- `RefCell`/`Ref` borrow guards and `MaybeUninit` initialisation. The
  cache is a plain `Option<T>` field. `init_array` and `zero_array` are
  the same fill loop, `Merkle.InitArray`.
- Integer widths. Positions, counters and capacities are unbounded
  naturals, so the model does not capture:
  - `u64` overflow of `capacity` (`pow`) and of the legacy `num_leaves`;
  - the `as u32` and `as usize` casts;
  - the signed and 128-bit conversions of `TreePosition::from`. Only
    natural numbers are converted.
- In-place identity of nodes: nodes are values, and the updated node is
  handed back to the caller.
- Discarded cache writes: `Opening::new` and the walk read items through
  the memoised `item()`. The model discards the refreshed cache there,
  which changes no result.
- Aliasing of the walk: the walk holds a value of the root taken when it
  is created. The source borrows the tree, so the tree cannot change
  while a walk exists either.
- The `large_tree` walk test (height 17, arity 4): its positions lie far
  outside what the concrete scenarios can unfold. The ordering and
  completeness lemmas of `WalkOrder` cover it in general.
- `Merkle.Capacity`: its contract states only that a capacity is
  positive. The power law is `Merkle.CapacityAdd`, and the other facts
  are stated where the capacity is used (`Sparse.ChildLocation`,
  `Position.ValueOfDigits`).
- `LegacyTree.Tree.Insert` requires `HEIGHT >= 1`. At height 0 the source
  never stops descending and fails on the `height - 1` underflow.
- `HeightNode.ItemAt`: the corrected read assumes `EMPTY_SUBTREES` has
  `H + 1` entries, one per height including the leaves. The source
  declares `[T; H]`, which has no entry for height `H`. The field
  `cfg.agg.empty` of the canonical configuration is not used by this
  variant.
- Panics: inserting beyond the capacity, removing a vacant position
  through a node, and building an opening for a vacant position. Each is
  a precondition rather than an error result.

## Findings

| source | as written | input that shows it | evidently intended | confidence | as-written member | corrected member |
|---|---|---|---|---|---|---|
| src/node.rs:62 | a stale node asks its children for their item with its own `height`, so every descendant uses the empty value of the height where the read started | `H = 2`, `A = 2`, `EMPTY_SUBTREES = [0, 10, 20]`, sum aggregate, one leaf 5 at position 0: the root item is 5 + 10 + 10 = 25 | the children are asked at `height + 1`, giving 5 + 20 + 10 = 35, the per-height aggregate | not executed | HeightNode.SameHeightQuirk | HeightNode.ItemAt |

/** The contract's incremental tree over a sparse node map. */
module OnChainMerkle {
  import opened Codec
  import opened MerkleSpec
  import opened Numbers
  import opened PoolStorage

  // ------------------------------------------------------ what is stored

  /**
   Levels up to k already belong to the tree with one more leaf; the map has an
   entry for each non-empty node of its level and for no other.
   */
  ghost predicate StoredUpTo(
    nodes: map<(nat, nat), Bytes32>, H: Hasher<Bytes32>, depth: nat, leaves: seq<Bytes32>, leaf: Bytes32, k: nat)
  {
    && (forall l: nat, i: nat :: (l, i) in nodes <==>
          l <= depth && i < LayerSize(if l < k then |leaves| + 1 else |leaves|, l))
    && (forall l: nat, i: nat :: (l, i) in nodes ==>
          nodes[(l, i)] == Sub(H, if l < k then leaves + [leaf] else leaves, l, i))
  }

  ghost predicate Stored(nodes: map<(nat, nat), Bytes32>, H: Hasher<Bytes32>, depth: nat, leaves: seq<Bytes32>) {
    && (forall l: nat, i: nat :: (l, i) in nodes <==> l <= depth && i < LayerSize(|leaves|, l))
    && (forall l: nat, i: nat :: (l, i) in nodes ==> nodes[(l, i)] == Sub(H, leaves, l, i))
  }

  /** Writing the path node of level k brings that level up to date. */
  lemma StorePathNode(
    nodes: map<(nat, nat), Bytes32>, H: Hasher<Bytes32>, depth: nat, leaves: seq<Bytes32>, leaf: Bytes32, k: nat)
    requires k <= depth
    requires StoredUpTo(nodes, H, depth, leaves, leaf, k)
    ensures var a := Ancestor(|leaves|, k);
      StoredUpTo(nodes[(k, a) := Sub(H, leaves + [leaf], k, a)], H, depth, leaves, leaf, k + 1)
  {
    var a := Ancestor(|leaves|, k);
    LayerSizeSucc(|leaves|, k);
    forall i: nat | i != a
      ensures Sub(H, leaves + [leaf], k, i) == Sub(H, leaves, k, i)
    {
      AppendIsLocal(H, leaves, leaf, k, i);
    }
  }

  // -------------------------------------------------------------- the cost

  /**
   Hash calls of one insertion: one per level, and at each level where the path
   node is a left child a recomputed zero hash of that level.
   */
  function InsertCost(depth: nat, n: nat): nat {
    if depth == 0 then 0
    else InsertCost(depth - 1, n) + 1 + if Ancestor(n, depth - 1) % 2 == 0 then depth else 0
  }

  function BitCost(depth: nat, n: nat): nat {
    if depth == 0 then 0
    else BitCost(depth - 1, n) + if (n / Pow2(depth - 1)) % 2 == 0 then depth else 0
  }

  /** The cost in terms of the binary digits of the leaf index. */
  lemma {:induction false} InsertCostByBits(depth: nat, n: nat)
    ensures InsertCost(depth, n) == depth + BitCost(depth, n)
  {
    if depth > 0 {
      InsertCostByBits(depth - 1, n);
      AncestorByDivision(n, depth - 1);
    }
  }

  lemma AncestorByDivision(n: nat, level: nat)
    ensures Ancestor(n, level) == n / Pow2(level)
  {
    var a, w := Ancestor(n, level), Pow2(level);
    AncestorIsQuotient(n, level);
    assert (a + 1) * w == w * a + w;
    DivModUnique(w, a, n - w * a);
  }

  function Triangle(k: nat): nat {
    if k == 0 then 0 else Triangle(k - 1) + k
  }

  lemma {:induction false} TriangleClosed(k: nat)
    ensures 2 * Triangle(k) == k * (k + 1)
  {
    if k > 0 {
      TriangleClosed(k - 1);
    }
  }

  lemma {:induction false} InsertCostTriangle(depth: nat, n: nat)
    ensures InsertCost(depth, n) <= depth + Triangle(depth)
    ensures n < Pow2(depth) ==> (InsertCost(depth, n) == depth + Triangle(depth) <==> n == 0)
  {
    if depth > 0 {
      InsertCostTriangle(depth - 1, n);
      if n < Pow2(depth) {
        AncestorOfCapacity(n, depth);
        AncestorIsQuotient(n, depth - 1);
        assert (0 + 1) * Pow2(depth - 1) == Pow2(depth - 1);
      }
    }
  }

  /** The cost is largest for the first deposit, and within capacity only there. */
  lemma InsertCostBound(depth: nat, n: nat)
    ensures InsertCost(depth, n) <= depth + depth * (depth + 1) / 2
    ensures n < Pow2(depth) ==> (InsertCost(depth, n) == depth + depth * (depth + 1) / 2 <==> n == 0)
  {
    InsertCostTriangle(depth, n);
    TriangleClosed(depth);
  }

  // ---------------------------------------------------------- the two calls

  /**
   What the insertion finds at a level: a left child's sibling is never stored, a
   right child's always is.
   */
  lemma SiblingStored(
    nodes: map<(nat, nat), Bytes32>, H: Hasher<Bytes32>, depth: nat, leaves: seq<Bytes32>, leaf: Bytes32, level: nat)
    requires level < depth
    requires StoredUpTo(nodes, H, depth, leaves, leaf, level + 1)
    ensures var a := Ancestor(|leaves|, level);
      if a % 2 == 0 then (level, a + 1) !in nodes
      else (level, a - 1) in nodes && nodes[(level, a - 1)] == Sub(H, leaves + [leaf], level, a - 1)
  {
    LayerSizeSucc(|leaves|, level);
    var a := Ancestor(|leaves|, level);
    if a % 2 == 1 {
      assert (level, a - 1) in nodes;
    }
  }

  /** The recursion that recomputes a level's zero hash, with every Poseidon call counted. */
  method ZeroHash(H: Hasher<Bytes32>, level: nat) returns (hash: Bytes32, ghost hashes: nat)
    ensures hash == Zero(H, level)
    ensures hashes == level + 1
  {
    if level == 0 {
      hash, hashes := H.zero, 1;
    } else {
      var child;
      child, hashes := ZeroHash(H, level - 1);
      hash, hashes := H.pair(child, child), hashes + 1;
    }
  }

  /** The stored node, or the recomputed zero hash of its level and what that cost. */
  method NodeOrZeroHash(H: Hasher<Bytes32>, st: Storage, level: nat, index: u32)
    returns (hash: Bytes32, ghost hashes: nat)
    ensures hash == if (level, index) in st.nodes then st.nodes[(level, index)] else Zero(H, level)
    ensures hashes == if (level, index) in st.nodes then 0 else level + 1
  {
    if (level, index) in st.nodes {
      hash, hashes := st.nodes[(level, index)], 0;
    } else {
      hash, hashes := ZeroHash(H, level);
    }
  }

  /** Hashes the path node of a level with its sibling. */
  method HashWithSibling(
    H: Hasher<Bytes32>, st: Storage, level: nat, currentIndex: u32, currentHash: Bytes32,
    ghost depth: nat, ghost leaves: seq<Bytes32>, ghost leaf: Bytes32)
    returns (parent: Bytes32, ghost hashes: nat)
    requires level < depth && |leaves| < U32_MAX
    requires currentIndex == Ancestor(|leaves|, level)
    requires currentHash == Sub(H, leaves + [leaf], level, currentIndex)
    requires StoredUpTo(st.nodes, H, depth, leaves, leaf, level + 1)
    ensures parent == Sub(H, leaves + [leaf], level + 1, currentIndex / 2)
    ensures hashes == 1 + if currentIndex % 2 == 0 then level + 1 else 0
  {
    SiblingStored(st.nodes, H, depth, leaves, leaf, level);
    PathParent(H, leaves, leaf, level);
    var sibling;
    if currentIndex % 2 == 0 {
      sibling, hashes := NodeOrZeroHash(H, st, level, currentIndex + 1);
      parent := H.pair(currentHash, sibling);
    } else {
      sibling, hashes := NodeOrZeroHash(H, st, level, currentIndex - 1);
      parent := H.pair(sibling, currentHash);
    }
    hashes := hashes + 1;
  }

  /** One turn of the insertion loop. */
  method StoreParent(
    H: Hasher<Bytes32>, st: Storage, level: nat, currentIndex: u32, currentHash: Bytes32,
    ghost depth: nat, ghost leaves: seq<Bytes32>, ghost leaf: Bytes32)
    returns (parent: Bytes32, ghost hashes: nat)
    requires level < depth && |leaves| < U32_MAX
    requires currentIndex == Ancestor(|leaves|, level)
    requires currentHash == Sub(H, leaves + [leaf], level, currentIndex)
    requires StoredUpTo(st.nodes, H, depth, leaves, leaf, level + 1)
    modifies st`nodes
    ensures StoredUpTo(st.nodes, H, depth, leaves, leaf, level + 2)
    ensures parent == Sub(H, leaves + [leaf], level + 1, currentIndex / 2)
    ensures hashes == 1 + if currentIndex % 2 == 0 then level + 1 else 0
  {
    parent, hashes := HashWithSibling(H, st, level, currentIndex, currentHash, depth, leaves, leaf);
    StorePathNode(st.nodes, H, depth, leaves, leaf, level + 1);
    st.nodes := st.nodes[(level + 1, currentIndex / 2) := parent];
  }

  method InsertLeaf(H: Hasher<Bytes32>, st: Storage, commitment: Bytes32, ghost leaves: seq<Bytes32>)
    returns (root: Bytes32, ghost hashes: nat)
    requires st.config.Some? && st.nextLeafIndex == |leaves| < U32_MAX
    requires |leaves| < Pow2(st.config.value.depth)
    requires Stored(st.nodes, H, st.config.value.depth, leaves)
    modifies st`nodes, st`nextLeafIndex
    ensures Stored(st.nodes, H, st.config.value.depth, leaves + [commitment])
    ensures st.nextLeafIndex == |leaves| + 1
    ensures root == Root(H, st.config.value.depth, leaves + [commitment])
    ensures hashes == InsertCost(st.config.value.depth, |leaves|)
  {
    var depth: u32 := st.config.value.depth;
    var leafIndex: u32 := st.nextLeafIndex;
    StorePathNode(st.nodes, H, depth, leaves, commitment, 0);
    st.nodes := st.nodes[(0, leafIndex) := commitment];
    var currentHash := commitment;
    var currentIndex: u32 := leafIndex;
    hashes := 0;
    for level := 0 to depth
      modifies st`nodes
      invariant currentIndex == Ancestor(|leaves|, level)
      invariant currentHash == Sub(H, leaves + [commitment], level, currentIndex)
      invariant StoredUpTo(st.nodes, H, depth, leaves, commitment, level + 1)
      invariant hashes == InsertCost(level, |leaves|)
    {
      ghost var cost;
      currentHash, cost := StoreParent(H, st, level, currentIndex, currentHash, depth, leaves, commitment);
      hashes := hashes + cost;
      currentIndex := currentIndex / 2;
    }
    AncestorOfCapacity(|leaves|, depth);
    StoredToTheTop(st.nodes, H, depth, leaves, commitment);
    var next: u32 := leafIndex + 1;
    st.nextLeafIndex := next;
    root := currentHash;
  }

  lemma StoredToTheTop(
    nodes: map<(nat, nat), Bytes32>, H: Hasher<Bytes32>, depth: nat, leaves: seq<Bytes32>, leaf: Bytes32)
    requires StoredUpTo(nodes, H, depth, leaves, leaf, depth + 1)
    ensures Stored(nodes, H, depth, leaves + [leaf])
  {
  }

  method GetCurrentRoot(H: Hasher<Bytes32>, st: Storage, ghost leaves: seq<Bytes32>) returns (root: Bytes32)
    requires st.config.Some?
    requires Stored(st.nodes, H, st.config.value.depth, leaves)
    ensures root == Root(H, st.config.value.depth, leaves)
  {
    var depth := st.config.value.depth;
    if (depth, 0) in st.nodes {
      root := st.nodes[(depth, 0)];
    } else {
      SubEmpty(H, leaves, depth, 0);
      ghost var hashes;
      root, hashes := ZeroHash(H, depth);
    }
  }
}

/**
 The one definition of the zero-padded binary Merkle tree that the contract's
 sparse tree, the indexer's and the client's dense trees and the circuit are all
 related to. Generic in the node type: bytes on chain, field elements in the
 circuit, integers in the client.
 */
module MerkleSpec {
  import opened Numbers

  /** The empty-leaf value and the two-input node hash. */
  datatype Hasher<!T> = Hasher(zero: T, pair: (T, T) -> T)

  /** Root of an empty subtree of the given height. */
  function Zero<T>(H: Hasher<T>, level: nat): T {
    if level == 0 then H.zero else H.pair(Zero(H, level - 1), Zero(H, level - 1))
  }

  /** Hash of node i at the given level of the tree padded with empty leaves. */
  function Sub<T>(H: Hasher<T>, leaves: seq<T>, level: nat, i: nat): T {
    if level == 0 then
      if i < |leaves| then leaves[i] else H.zero
    else
      H.pair(Sub(H, leaves, level - 1, 2 * i), Sub(H, leaves, level - 1, 2 * i + 1))
  }

  function Root<T>(H: Hasher<T>, depth: nat, leaves: seq<T>): T {
    Sub(H, leaves, depth, 0)
  }

  /** Root after each number of insertions: entry j is the root of the first j leaves. */
  function Roots<T>(H: Hasher<T>, depth: nat, leaves: seq<T>): (roots: seq<T>)
    ensures |roots| == |leaves| + 1
  {
    seq(|leaves| + 1, j requires 0 <= j <= |leaves| => Root(H, depth, leaves[..j]))
  }

  lemma RootsAppend<T>(H: Hasher<T>, depth: nat, leaves: seq<T>, leaf: T)
    ensures Roots(H, depth, leaves + [leaf])
         == Roots(H, depth, leaves) + [Root(H, depth, leaves + [leaf])]
  {
    var all := leaves + [leaf];
    forall j | 0 <= j <= |leaves|
      ensures all[..j] == leaves[..j]
    {
    }
    assert all[..|all|] == all;
  }

  // ------------------------------------------------------------- positions

  /** Number of non-empty nodes at a level of a tree with n leaves. */
  function LayerSize(n: nat, level: nat): nat {
    if level == 0 then n else (LayerSize(n, level - 1) + 1) / 2
  }

  /** Index of the ancestor of leaf n at a level. */
  function Ancestor(n: nat, level: nat): nat {
    if level == 0 then n else Ancestor(n, level - 1) / 2
  }

  function Sibling(i: nat): nat {
    if i % 2 == 0 then i + 1 else i - 1
  }

  /** The layer size is the ceiling of n / 2^level. */
  lemma {:induction false} LayerSizeIsCeiling(n: nat, level: nat, i: nat)
    ensures i < LayerSize(n, level) <==> i * Pow2(level) < n
  {
    if level > 0 {
      LayerSizeIsCeiling(n, level - 1, 2 * i);
      assert (2 * i) * Pow2(level - 1) == i * (2 * Pow2(level - 1));
    }
  }

  lemma {:induction false} LayerSizeSucc(n: nat, level: nat)
    ensures LayerSize(n + 1, level) == Ancestor(n, level) + 1
    ensures Ancestor(n, level) <= LayerSize(n, level) <= Ancestor(n, level) + 1
  {
    if level > 0 {
      LayerSizeSucc(n, level - 1);
    }
  }

  lemma AncestorIsQuotient(n: nat, level: nat)
    ensures Ancestor(n, level) * Pow2(level) <= n < (Ancestor(n, level) + 1) * Pow2(level)
  {
    LayerSizeSucc(n, level);
    LayerSizeIsCeiling(n + 1, level, Ancestor(n, level));
    LayerSizeIsCeiling(n + 1, level, Ancestor(n, level) + 1);
  }

  lemma AncestorOfCapacity(n: nat, depth: nat)
    requires n < Pow2(depth)
    ensures Ancestor(n, depth) == 0
  {
    AncestorIsQuotient(n, depth);
    if Ancestor(n, depth) >= 1 {
      ProductAtLeast(Pow2(depth), Ancestor(n, depth));
    }
  }

  // -------------------------------------------------- locality of insertion

  /** Nodes beyond the layer size are roots of empty subtrees. */
  lemma {:induction false} SubEmpty<T>(H: Hasher<T>, leaves: seq<T>, level: nat, i: nat)
    requires LayerSize(|leaves|, level) <= i
    ensures Sub(H, leaves, level, i) == Zero(H, level)
  {
    if level > 0 {
      SubEmpty(H, leaves, level - 1, 2 * i);
      SubEmpty(H, leaves, level - 1, 2 * i + 1);
    }
  }

  /** Appending a leaf leaves every node that is not its ancestor alone. */
  lemma {:induction false} AppendIsLocal<T>(H: Hasher<T>, leaves: seq<T>, leaf: T, level: nat, i: nat)
    requires i != Ancestor(|leaves|, level)
    ensures Sub(H, leaves + [leaf], level, i) == Sub(H, leaves, level, i)
  {
    if level > 0 {
      AppendIsLocal(H, leaves, leaf, level - 1, 2 * i);
      AppendIsLocal(H, leaves, leaf, level - 1, 2 * i + 1);
    }
  }

  /**
   On the path of the next leaf a left child's sibling is an empty subtree, before
   and after the insertion, and a right child's sibling is occupied and unchanged.
   */
  lemma PathSibling<T>(H: Hasher<T>, leaves: seq<T>, leaf: T, level: nat)
    ensures var a := Ancestor(|leaves|, level);
      Sub(H, leaves + [leaf], level, Sibling(a)) == Sub(H, leaves, level, Sibling(a))
    ensures var a := Ancestor(|leaves|, level);
      a % 2 == 0 ==>
        LayerSize(|leaves|, level) <= a + 1 && Sub(H, leaves, level, a + 1) == Zero(H, level)
    ensures var a := Ancestor(|leaves|, level);
      a % 2 == 1 ==> a - 1 < LayerSize(|leaves|, level)
  {
    var a := Ancestor(|leaves|, level);
    AppendIsLocal(H, leaves, leaf, level, Sibling(a));
    LayerSizeSucc(|leaves|, level);
    if a % 2 == 0 {
      SubEmpty(H, leaves, level, a + 1);
    }
  }

  lemma SubOfParent<T>(H: Hasher<T>, leaves: seq<T>, level: nat, a: nat)
    ensures var (here, beside) := (Sub(H, leaves, level, a), Sub(H, leaves, level, Sibling(a)));
      Sub(H, leaves, level + 1, a / 2) == if a % 2 == 0 then H.pair(here, beside) else H.pair(beside, here)
  {
    if a % 2 == 0 {
      assert a == 2 * (a / 2);
    } else {
      assert a == 2 * (a / 2) + 1;
    }
  }

  /** The parent of the next leaf's path node, in terms of what an insertion reads. */
  lemma PathParent<T>(H: Hasher<T>, leaves: seq<T>, leaf: T, level: nat)
    ensures var (all, a) := (leaves + [leaf], Ancestor(|leaves|, level));
      Sub(H, all, level + 1, a / 2) ==
        if a % 2 == 0 then H.pair(Sub(H, all, level, a), Zero(H, level))
        else H.pair(Sub(H, all, level, a - 1), Sub(H, all, level, a))
  {
    PathSibling(H, leaves, leaf, level);
    SubOfParent(H, leaves + [leaf], level, Ancestor(|leaves|, level));
  }

  // --------------------------------------------------------- inclusion paths

  /** Folds a leaf with the first k siblings, branching on the direction bits. */
  function Fold<T>(H: Hasher<T>, leaf: T, path: seq<T>, bits: seq<nat>, k: nat): T
    requires k <= |path| && k <= |bits|
  {
    if k == 0 then leaf
    else
      var current := Fold(H, leaf, path, bits, k - 1);
      if bits[k - 1] == 0 then H.pair(current, path[k - 1]) else H.pair(path[k - 1], current)
  }

  predicate Binary(bits: seq<nat>) {
    forall i :: 0 <= i < |bits| ==> bits[i] <= 1
  }

  /** The number whose binary digits, least significant first, are bits[..k]. */
  function IndexOf(bits: seq<nat>, k: nat): nat
    requires k <= |bits|
  {
    if k == 0 then 0 else IndexOf(bits, k - 1) + bits[k - 1] * Pow2(k - 1)
  }

  datatype MerkleProof<T> = MerkleProof(root: T, path: seq<T>, bits: seq<nat>, leafIndex: nat)

  /** What a dense tree answers for an index: its siblings up to the root. */
  function SpecProof<T>(H: Hasher<T>, depth: nat, leaves: seq<T>, index: nat): MerkleProof<T> {
    MerkleProof(
      Root(H, depth, leaves),
      seq(depth, l requires 0 <= l < depth => Sub(H, leaves, l, Sibling(Ancestor(index, l)))),
      seq(depth, l requires 0 <= l < depth => Ancestor(index, l) % 2),
      index)
  }

  ghost predicate IsPath<T>(H: Hasher<T>, leaves: seq<T>, index: nat, path: seq<T>, bits: seq<nat>) {
    && |path| == |bits|
    && (forall l :: 0 <= l < |path| ==> path[l] == Sub(H, leaves, l, Sibling(Ancestor(index, l))))
    && IsDirections(index, bits)
  }

  ghost predicate IsDirections(index: nat, bits: seq<nat>) {
    forall l :: 0 <= l < |bits| ==> bits[l] == Ancestor(index, l) % 2
  }

  lemma {:induction false} FoldClimbs<T>(
    H: Hasher<T>, leaves: seq<T>, index: nat, path: seq<T>, bits: seq<nat>, k: nat)
    requires index < |leaves| && k <= |path|
    requires IsPath(H, leaves, index, path, bits)
    ensures Fold(H, leaves[index], path, bits, k) == Sub(H, leaves, k, Ancestor(index, k))
  {
    if k > 0 {
      FoldClimbs(H, leaves, index, path, bits, k - 1);
      SubOfParent(H, leaves, k - 1, Ancestor(index, k - 1));
    }
  }

  lemma {:induction false} BitsSpellAncestors(index: nat, bits: seq<nat>, k: nat)
    requires k <= |bits|
    requires IsDirections(index, bits)
    ensures IndexOf(bits, k) + Ancestor(index, k) * Pow2(k) == index
  {
    if k > 0 {
      BitsSpellAncestors(index, bits, k - 1);
      HalfStep(Ancestor(index, k - 1), Pow2(k - 1));
    }
  }

  lemma HalfStep(a: nat, w: nat)
    ensures a * w == (a % 2) * w + (a / 2) * (2 * w)
  {
    var q, r := a / 2, a % 2;
    assert a == 2 * q + r;
    assert (2 * q + r) * w == (2 * q) * w + r * w;
  }

  /**
   Proof completeness: within capacity the path of every inserted leaf folds to
   the root, has one entry per level, and its bits are the digits of the index.
   */
  lemma ProofComplete<T>(H: Hasher<T>, depth: nat, leaves: seq<T>, index: nat)
    requires index < |leaves| && index < Pow2(depth)
    ensures var proof := SpecProof(H, depth, leaves, index);
      && |proof.path| == depth && |proof.bits| == depth
      && Binary(proof.bits)
      && IndexOf(proof.bits, depth) == index == proof.leafIndex
      && Fold(H, leaves[index], proof.path, proof.bits, depth) == proof.root == Root(H, depth, leaves)
  {
    var proof := SpecProof(H, depth, leaves, index);
    FoldClimbs(H, leaves, index, proof.path, proof.bits, depth);
    BitsSpellAncestors(index, proof.bits, depth);
    AncestorOfCapacity(index, depth);
  }

  // -------------------------------------------------- change of node type

  function Mapped<T, U>(f: T -> U, s: seq<T>): (r: seq<U>)
    ensures |r| == |s|
  {
    seq(|s|, i requires 0 <= i < |s| => f(s[i]))
  }

  /** f carries the first hasher to the second. */
  ghost predicate Carries<T(!new), U>(f: T -> U, H: Hasher<T>, K: Hasher<U>) {
    && f(H.zero) == K.zero
    && forall a, b :: f(H.pair(a, b)) == K.pair(f(a), f(b))
  }

  lemma {:induction false} SubCarried<T(!new), U>(
    f: T -> U, H: Hasher<T>, K: Hasher<U>, leaves: seq<T>, level: nat, i: nat)
    requires Carries(f, H, K)
    ensures f(Sub(H, leaves, level, i)) == Sub(K, Mapped(f, leaves), level, i)
  {
    if level > 0 {
      SubCarried(f, H, K, leaves, level - 1, 2 * i);
      SubCarried(f, H, K, leaves, level - 1, 2 * i + 1);
    }
  }

  lemma {:induction false} FoldCarried<T(!new), U>(
    f: T -> U, H: Hasher<T>, K: Hasher<U>, leaf: T, path: seq<T>, bits: seq<nat>, k: nat)
    requires Carries(f, H, K)
    requires k <= |path| && k <= |bits|
    ensures f(Fold(H, leaf, path, bits, k)) == Fold(K, f(leaf), Mapped(f, path), bits, k)
  {
    if k > 0 {
      FoldCarried(f, H, K, leaf, path, bits, k - 1);
    }
  }
}

/**
 Merkle binding by extraction. No hash is assumed injective: each function below
 computes, from openings that ought not to coexist, a concrete coincidence of the
 hash, and the lemma next to it says that what it returns is genuine.
 */
module MerkleBinding {
  import opened MerkleSpec
  import opened Numbers
  import opened Wrappers

  /** Two different inputs of one two-input hash, or an opening of the empty leaf. */
  datatype Coincidence<T> =
    | PairCollision(a: T, b: T, c: T, d: T)
    | ZeroPreimage(s: T, n: T)

  predicate Genuine<T(==)>(H: Hasher<T>, x: Coincidence<T>) {
    match x
    case PairCollision(a, b, c, d) => (a, b) != (c, d) && H.pair(a, b) == H.pair(c, d)
    case ZeroPreimage(s, n) => H.pair(s, n) == H.zero
  }

  /** The two inputs of the k-th hash of a fold. */
  function Inputs<T>(H: Hasher<T>, leaf: T, path: seq<T>, bits: seq<nat>, k: nat): (T, T)
    requires k < |path| && k < |bits|
  {
    var current := Fold(H, leaf, path, bits, k);
    if bits[k] == 0 then (current, path[k]) else (path[k], current)
  }

  function Compare<T(==)>(x: (T, T), y: (T, T)): Option<Coincidence<T>> {
    if x == y then None else Some(PairCollision(x.0, x.1, y.0, y.1))
  }

  // ---------------------------------------------- two openings of one root

  function OpeningCollision<T(==)>(
    H: Hasher<T>, leaf: T, path: seq<T>, leaf': T, path': seq<T>, bits: seq<nat>, k: nat): Option<Coincidence<T>>
    requires k <= |path| && k <= |path'| && k <= |bits|
  {
    if k == 0 then None
    else
      var x := Compare(Inputs(H, leaf, path, bits, k - 1), Inputs(H, leaf', path', bits, k - 1));
      if x.Some? then x else OpeningCollision(H, leaf, path, leaf', path', bits, k - 1)
  }

  /**
   Two openings of one root along the same directions either exhibit a collision
   or are the same opening, leaf and siblings alike.
   */
  lemma {:induction false} OpeningsBind<T>(
    H: Hasher<T>, leaf: T, path: seq<T>, leaf': T, path': seq<T>, bits: seq<nat>, k: nat)
    requires k <= |path| && k <= |path'| && k <= |bits|
    requires Fold(H, leaf, path, bits, k) == Fold(H, leaf', path', bits, k)
    ensures match OpeningCollision(H, leaf, path, leaf', path', bits, k)
      case Some(x) => Genuine(H, x)
      case None => leaf == leaf' && path[..k] == path'[..k]
  {
    if k > 0 {
      if Inputs(H, leaf, path, bits, k - 1) == Inputs(H, leaf', path', bits, k - 1) {
        OpeningsBind(H, leaf, path, leaf', path', bits, k - 1);
        assert path[..k] == path[..k - 1] + [path[k - 1]];
        assert path'[..k] == path'[..k - 1] + [path'[k - 1]];
      }
    }
  }

  // ------------------------------------------------ an opening of a known tree

  function Children<T>(H: Hasher<T>, leaves: seq<T>, level: nat, i: nat): (T, T) {
    (Sub(H, leaves, level, 2 * i), Sub(H, leaves, level, 2 * i + 1))
  }

  function PathCollision<T(==)>(
    H: Hasher<T>, leaves: seq<T>, i: nat, leaf: T, path: seq<T>, bits: seq<nat>, k: nat): Option<Coincidence<T>>
    requires k <= |path| && k <= |bits|
    decreases k
  {
    if k == 0 then None
    else
      var x := Compare(Inputs(H, leaf, path, bits, k - 1), Children(H, leaves, k - 1, i));
      if x.Some? then x
      else PathCollision(H, leaves, 2 * i + bits[k - 1], leaf, path, bits, k - 1)
  }

  /**
   A path that folds to node (k, i) of a tree either exhibits a collision or opens
   the leaf that its direction bits spell.
   */
  lemma {:induction false} PathBinds<T>(
    H: Hasher<T>, leaves: seq<T>, i: nat, leaf: T, path: seq<T>, bits: seq<nat>, k: nat)
    requires k <= |path| && k <= |bits|
    requires Binary(bits)
    requires Fold(H, leaf, path, bits, k) == Sub(H, leaves, k, i)
    ensures match PathCollision(H, leaves, i, leaf, path, bits, k)
      case Some(x) => Genuine(H, x)
      case None => leaf == Sub(H, leaves, 0, i * Pow2(k) + IndexOf(bits, k))
    decreases k
  {
    if k > 0 {
      if Inputs(H, leaf, path, bits, k - 1) == Children(H, leaves, k - 1, i) {
        PathBinds(H, leaves, 2 * i + bits[k - 1], leaf, path, bits, k - 1);
        ChildOffset(i, bits[k - 1], Pow2(k - 1));
      }
    }
  }

  lemma ChildOffset(i: nat, b: nat, w: nat)
    ensures (2 * i + b) * w == i * (2 * w) + b * w
  {
    assert (2 * i + b) * w == (2 * i) * w + b * w;
  }

  // ------------------------------------------------- two trees with one root

  function TreeCollision<T(==)>(
    H: Hasher<T>, leaves: seq<T>, leaves': seq<T>, index: nat, k: nat): Option<Coincidence<T>>
  {
    if k == 0 then None
    else
      var a := Ancestor(index, k);
      var x := Compare(Children(H, leaves, k - 1, a), Children(H, leaves', k - 1, a));
      if x.Some? then x else TreeCollision(H, leaves, leaves', index, k - 1)
  }

  /** Trees that agree on an ancestor of a leaf agree on the leaf, or exhibit a collision. */
  lemma {:induction false} TreesBind<T>(
    H: Hasher<T>, leaves: seq<T>, leaves': seq<T>, index: nat, k: nat)
    requires Sub(H, leaves, k, Ancestor(index, k)) == Sub(H, leaves', k, Ancestor(index, k))
    ensures match TreeCollision(H, leaves, leaves', index, k)
      case Some(x) => Genuine(H, x)
      case None => Sub(H, leaves, 0, index) == Sub(H, leaves', 0, index)
  {
    if k > 0 {
      var a := Ancestor(index, k);
      if Children(H, leaves, k - 1, a) == Children(H, leaves', k - 1, a) {
        var b := Ancestor(index, k - 1);
        assert b == 2 * a || b == 2 * a + 1;
        TreesBind(H, leaves, leaves', index, k - 1);
      }
    }
  }

  /**
   Unless a collision is exhibited, the root after j insertions differs from every
   later one, provided leaf j itself is not the empty-leaf value.
   */
  lemma LaterRootsDiffer<T>(H: Hasher<T>, depth: nat, leaves: seq<T>, j: nat, k: nat)
    requires j < k <= |leaves| && j < Pow2(depth)
    requires leaves[j] != H.zero
    requires Root(H, depth, leaves[..j]) == Root(H, depth, leaves[..k])
    ensures var x := TreeCollision(H, leaves[..j], leaves[..k], j, depth);
      x.Some? && Genuine(H, x.value)
  {
    AncestorOfCapacity(j, depth);
    TreesBind(H, leaves[..j], leaves[..k], j, depth);
  }
}

/**
 The off-chain tree that rebuilds every layer on each insertion. Indexer and
 client run the same algorithm, over 32-byte strings and over integers.
 */
module DenseTree {
  import opened MerkleSpec
  import opened Wrappers

  class MerkleTree<T(==)> {
    const H: Hasher<T>
    const depth: nat
    var leaves: seq<T>
    var layers: seq<seq<T>>  // layers[0] == leaves, layers[depth] holds the root
    var zeroValues: seq<T>

    ghost predicate Valid()
      reads this
    {
      && |zeroValues| == |layers| == depth + 1
      && (forall l :: 0 <= l <= depth ==> zeroValues[l] == Zero(H, l))
      && layers[0] == leaves
      && forall l :: 0 <= l <= depth ==> IsLayer(layers[l], l)
    }

    /** The layer holds exactly the non-empty nodes of its level. */
    ghost predicate IsLayer(layer: seq<T>, level: nat)
      reads this
    {
      && |layer| == LayerSize(|leaves|, level)
      && forall i :: 0 <= i < |layer| ==> layer[i] == Sub(H, leaves, level, i)
    }

    constructor (H: Hasher<T>, depth: nat)
      ensures Valid()
      ensures this.H == H && this.depth == depth && leaves == []
    {
      var zeros := [H.zero];
      for i := 1 to depth + 1
        invariant |zeros| == i
        invariant forall l :: 0 <= l < i ==> zeros[l] == Zero(H, l)
      {
        zeros := zeros + [H.pair(zeros[i - 1], zeros[i - 1])];
      }
      this.H := H;
      this.depth := depth;
      leaves := [];
      layers := seq(depth + 1, _ => []);
      zeroValues := zeros;
      new;
      forall l | 0 <= l <= depth
        ensures IsLayer(layers[l], l)
      {
        EmptyLayer(l);
      }
    }

    method Insert(commitment: T) returns (index: nat)
      requires Valid()
      modifies this
      ensures Valid()
      ensures leaves == old(leaves) + [commitment]
      ensures index == |old(leaves)|
    {
      index := |leaves|;
      leaves := leaves + [commitment];
      layers := layers[0 := leaves];
      Rebuild();
    }

    method Rebuild()
      requires |zeroValues| == |layers| == depth + 1
      requires forall l :: 0 <= l <= depth ==> zeroValues[l] == Zero(H, l)
      requires layers[0] == leaves
      modifies this`layers
      ensures Valid()
    {
      for level := 0 to depth
        invariant |layers| == depth + 1
        invariant layers[0] == leaves
        invariant forall l :: 0 <= l <= level ==> IsLayer(layers[l], l)
      {
        var layerSize := (|layers[level]| + 1) / 2;
        var next: seq<T> := [];
        for i := 0 to layerSize
          modifies {}
          invariant |next| == i
          invariant forall j :: 0 <= j < i ==> next[j] == Sub(H, leaves, level + 1, j)
        {
          var left := Get(layers[level], 2 * i, zeroValues[level]);
          var right := Get(layers[level], 2 * i + 1, zeroValues[level]);
          NodeOrZero(layers[level], level, 2 * i);
          NodeOrZero(layers[level], level, 2 * i + 1);
          next := next + [H.pair(left, right)];
        }
        layers := layers[level + 1 := next];
      }
    }

    function Get(layer: seq<T>, i: nat, zero: T): T {
      if i < |layer| then layer[i] else zero
    }

    lemma NodeOrZero(layer: seq<T>, level: nat, i: nat)
      requires IsLayer(layer, level)
      ensures Get(layer, i, Zero(H, level)) == Sub(H, leaves, level, i)
    {
      if |layer| <= i {
        SubEmpty(H, leaves, level, i);
      }
    }

    method GetRoot() returns (root: T)
      requires Valid()
      ensures root == Root(H, depth, leaves)
    {
      NodeOrZero(layers[depth], depth, 0);
      if |layers[depth]| == 0 {
        root := zeroValues[depth];
      } else {
        root := layers[depth][0];
      }
    }

    /** None is the indexer's missing answer and the client's out-of-bounds error. */
    method Proof(index: nat) returns (proof: Option<MerkleProof<T>>)
      requires Valid()
      ensures proof == if index < |leaves| then Some(SpecProof(H, depth, leaves, index)) else None
    {
      if index >= |leaves| {
        return None;
      }
      var path: seq<T>, bits: seq<nat> := [], [];
      var currentIndex := index;
      for level := 0 to depth
        invariant currentIndex == Ancestor(index, level)
        invariant |path| == level
        invariant IsPath(H, leaves, index, path, bits)
      {
        var siblingIndex := if currentIndex % 2 == 0 then currentIndex + 1 else currentIndex - 1;
        var sibling := Get(layers[level], siblingIndex, zeroValues[level]);
        NodeOrZero(layers[level], level, siblingIndex);
        path := path + [sibling];
        bits := bits + [currentIndex % 2];
        currentIndex := currentIndex / 2;
      }
      var root := GetRoot();
      PathIsSpec(H, depth, leaves, index, path, bits);
      proof := Some(MerkleProof(root, path, bits, index));
    }

    /** Index of the first occurrence of a commitment. */
    method FindCommitment(commitment: T) returns (index: Option<nat>)
      ensures index.None? ==> commitment !in leaves
      ensures index.Some? ==>
        index.value < |leaves| && leaves[index.value] == commitment && commitment !in leaves[..index.value]
    {
      for i := 0 to |leaves|
        invariant commitment !in leaves[..i]
      {
        if leaves[i] == commitment {
          return Some(i);
        }
      }
      index := None;
    }
  }

  lemma PathIsSpec<T>(
    H: Hasher<T>, depth: nat, leaves: seq<T>, index: nat, path: seq<T>, bits: seq<nat>)
    requires |path| == depth
    requires IsPath(H, leaves, index, path, bits)
    ensures MerkleProof(Root(H, depth, leaves), path, bits, index) == SpecProof(H, depth, leaves, index)
  {
    var spec := SpecProof(H, depth, leaves, index);
    assert path == spec.path;
    assert bits == spec.bits;
  }

  lemma {:induction false} EmptyLayer(level: nat)
    ensures LayerSize(0, level) == 0
  {
    if level > 0 {
      EmptyLayer(level - 1);
    }
  }
}

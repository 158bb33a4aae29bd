/** The indexer's mirror of the pool: its tree and its chronological list of roots. */
module Indexer {
  import opened Codec
  import opened DenseTree
  import opened MerkleSpec
  import opened OnChainMerkle

  datatype RootEntry = RootEntry(root: Bytes32, depositIndex: nat)

  class AppState {
    const tree: MerkleTree<Bytes32>
    var roots: seq<RootEntry>

    /** Each listed root is the root of as many leaves as its entry says. */
    ghost predicate Valid()
      reads this, tree
    {
      && tree.Valid()
      && forall k :: 0 <= k < |roots| ==> IsEntry(roots[k])
    }

    ghost predicate IsEntry(e: RootEntry)
      reads tree
    {
      e.depositIndex <= |tree.leaves| && e.root == Root(tree.H, tree.depth, tree.leaves[..e.depositIndex])
    }

    /** One entry per deposit, the empty tree included; lost only by a restore. */
    ghost predicate InSync()
      reads this, tree
    {
      && |roots| == |tree.leaves| + 1
      && forall k :: 0 <= k < |roots| ==> roots[k].depositIndex == k
    }

    constructor (H: Hasher<Bytes32>, depth: nat)
      ensures Valid() && InSync()
      ensures tree.H == H && tree.depth == depth && tree.leaves == []
      ensures fresh(tree)
    {
      var t := new MerkleTree<Bytes32>(H, depth);
      var initialRoot := t.GetRoot();
      tree := t;
      roots := [RootEntry(initialRoot, 0)];
    }

    method InsertCommitment(commitment: Bytes32) returns (index: nat)
      requires Valid()
      modifies this, tree
      ensures Valid()
      ensures old(InSync()) ==> InSync()
      ensures index == |old(tree.leaves)| && tree.leaves == old(tree.leaves) + [commitment]
      ensures roots == old(roots) + [RootEntry(Root(tree.H, tree.depth, tree.leaves), index + 1)]
    {
      ghost var before := tree.leaves;
      index := tree.Insert(commitment);
      var root := tree.GetRoot();
      EntriesKept(before, commitment);
      assert tree.leaves[..index + 1] == tree.leaves;
      roots := roots + [RootEntry(root, index + 1)];
    }

    /** Restart from the database: the tree is refilled, the root list is not. */
    method Restore(commitments: seq<Bytes32>)
      requires Valid()
      modifies tree
      ensures Valid()
      ensures tree.leaves == old(tree.leaves) + commitments && roots == old(roots)
    {
      for i := 0 to |commitments|
        invariant Valid()
        invariant tree.leaves == old(tree.leaves) + commitments[..i]
      {
        ghost var before := tree.leaves;
        var _ := tree.Insert(commitments[i]);
        EntriesKept(before, commitments[i]);
      }
    }

    /** Entries of a tree with fewer leaves stay correct. */
    lemma EntriesKept(before: seq<Bytes32>, leaf: Bytes32)
      requires tree.leaves == before + [leaf]
      ensures forall e: RootEntry ::
        e.depositIndex <= |before| && e.root == Root(tree.H, tree.depth, before[..e.depositIndex]) ==> IsEntry(e)
    {
      forall k | 0 <= k <= |before|
        ensures tree.leaves[..k] == before[..k]
      {
      }
    }

    /** A synchronized list is the sequence of roots the pool has pushed. */
    lemma SyncedListIsRootLog()
      requires Valid() && InSync()
      ensures |roots| == |Roots(tree.H, tree.depth, tree.leaves)|
      ensures forall k :: 0 <= k < |roots| ==> roots[k].root == Roots(tree.H, tree.depth, tree.leaves)[k]
    {
      forall k | 0 <= k < |roots|
        ensures roots[k].root == Roots(tree.H, tree.depth, tree.leaves)[k]
      {
        assert IsEntry(roots[k]);
      }
    }
  }

  /**
   The incremental tree refines the rebuilt one: for the same deposits the sparse
   map and the dense layers have the same entries, node by node.
   */
  lemma SparseIsDense(nodes: map<(nat, nat), Bytes32>, tree: MerkleTree<Bytes32>)
    requires tree.Valid()
    requires Stored(nodes, tree.H, tree.depth, tree.leaves)
    ensures forall l: nat, i: nat :: (l, i) in nodes <==> l <= tree.depth && i < |tree.layers[l]|
    ensures forall l: nat, i: nat :: (l, i) in nodes ==> nodes[(l, i)] == tree.layers[l][i]
  {
    forall l: nat | l <= tree.depth
      ensures tree.IsLayer(tree.layers[l], l)
    {
    }
  }
}

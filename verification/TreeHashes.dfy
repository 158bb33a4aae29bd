/**
 The three instances of the generic tree: over byte strings (contract and
 indexer), over field elements (circuit) and over integers (client), and the
 proof that reduction mod p carries the first and the last to the second.
 */
module TreeHashes {
  import opened Codec
  import opened Field
  import opened MerkleSpec

  function BytesHasher(h: Poseidon): Hasher<Bytes32> {
    Hasher(HashSingleBytes(h, ZERO_BYTES), (a: Bytes32, b: Bytes32) => HashPairBytes(h, a, b))
  }

  function FieldHasher(h: Poseidon): Hasher<Fr> {
    Hasher(h.h1(0), (a: Fr, b: Fr) => h.h2(a, b))
  }

  /** The client hashes integers; its Poseidon reduces its inputs. */
  function IntHasher(h: Poseidon): Hasher<nat> {
    Hasher(h.h1(0), (a: nat, b: nat) => h.h2(Reduce(a), Reduce(b)))
  }

  function Field32(b: Bytes32): Fr {
    BytesToFr(b)
  }

  function FieldInt(n: nat): Fr {
    Reduce(n)
  }

  function FieldLeaves(leaves: seq<Bytes32>): (r: seq<Fr>)
    ensures |r| == |leaves|
  {
    Mapped(Field32, leaves)
  }

  lemma BytesCarry(h: Poseidon)
    ensures Carries(Field32, BytesHasher(h), FieldHasher(h))
  {
    FromBEZeros(ZERO_BYTES);
    FrRoundTrip(h.h1(0));
    forall a: Bytes32, b: Bytes32
      ensures Field32(BytesHasher(h).pair(a, b)) == FieldHasher(h).pair(Field32(a), Field32(b))
    {
      FrRoundTrip(h.h2(BytesToFr(a), BytesToFr(b)));
    }
  }

  lemma IntsCarry(h: Poseidon)
    ensures Carries(FieldInt, IntHasher(h), FieldHasher(h))
  {
  }

  /** The byte tree's root denotes the field tree's root. */
  lemma RootOnField(h: Poseidon, depth: nat, leaves: seq<Bytes32>)
    ensures BytesToFr(Root(BytesHasher(h), depth, leaves)) == Root(FieldHasher(h), depth, FieldLeaves(leaves))
  {
    BytesCarry(h);
    SubCarried(Field32, BytesHasher(h), FieldHasher(h), leaves, depth, 0);
  }

  /** Every inner node, so every root, is stored in canonical form. */
  lemma RootIsCanonical(h: Poseidon, depth: nat, leaves: seq<Bytes32>)
    requires depth > 0
    ensures Canonical(Root(BytesHasher(h), depth, leaves))
  {
    var H := BytesHasher(h);
    FrRoundTrip(h.h2(BytesToFr(Sub(H, leaves, depth - 1, 0)), BytesToFr(Sub(H, leaves, depth - 1, 1))));
    assert Root(H, depth, leaves) == H.pair(Sub(H, leaves, depth - 1, 0), Sub(H, leaves, depth - 1, 1));
  }

  /** Leaf sequences of client and contract that denote the same field elements. */
  ghost predicate SameLeaves(ints: seq<nat>, bytes: seq<Bytes32>) {
    && |ints| == |bytes|
    && forall i :: 0 <= i < |ints| ==> FieldInt(ints[i]) == Field32(bytes[i])
  }

  /**
   Client, indexer and contract agree on the root of the same deposits, the empty
   history included: the client's integer encodes to the contract's 32 bytes.
   */
  lemma ClientRootIsChainRoot(h: Poseidon, depth: nat, ints: seq<nat>, bytes: seq<Bytes32>)
    requires depth > 0
    requires SameLeaves(ints, bytes)
    ensures ToBytes32(Root(IntHasher(h), depth, ints)) == Root(BytesHasher(h), depth, bytes)
  {
    var chain, client := Root(BytesHasher(h), depth, bytes), Root(IntHasher(h), depth, ints);
    RootOnField(h, depth, bytes);
    RootIsCanonical(h, depth, bytes);
    IntsCarry(h);
    SubCarried(FieldInt, IntHasher(h), FieldHasher(h), ints, depth, 0);
    assert Mapped(FieldInt, ints) == FieldLeaves(bytes);
    var left, right := Sub(IntHasher(h), ints, depth - 1, 0), Sub(IntHasher(h), ints, depth - 1, 1);
    assert client == h.h2(Reduce(left), Reduce(right)) < P;
    assert FieldInt(client) == client;
    CanonicalIff(chain);
  }

  /**
   The client's own tree answers with the indexer's path: the same directions, and
   siblings that denote the same field elements.
   */
  lemma ClientPathIsIndexerPath(h: Poseidon, depth: nat, ints: seq<nat>, bytes: seq<Bytes32>, index: nat)
    requires SameLeaves(ints, bytes)
    ensures var (client, indexer) := (
        SpecProof(IntHasher(h), depth, ints, index), SpecProof(BytesHasher(h), depth, bytes, index));
      && client.bits == indexer.bits
      && Mapped(FieldInt, client.path) == FieldLeaves(indexer.path)
      && FieldInt(client.root) == Field32(indexer.root)
  {
    assert Mapped(FieldInt, ints) == FieldLeaves(bytes);
    forall l: nat, i: nat
      ensures FieldInt(Sub(IntHasher(h), ints, l, i)) == Field32(Sub(BytesHasher(h), bytes, l, i))
    {
      IntsCarry(h);
      BytesCarry(h);
      SubCarried(FieldInt, IntHasher(h), FieldHasher(h), ints, l, i);
      SubCarried(Field32, BytesHasher(h), FieldHasher(h), bytes, l, i);
    }
    var client, indexer := SpecProof(IntHasher(h), depth, ints, index), SpecProof(BytesHasher(h), depth, bytes, index);
    assert client.bits == indexer.bits;
    assert Mapped(FieldInt, client.path) == FieldLeaves(indexer.path);
  }

  /** An indexer path, read as field elements, folds to the root in the field. */
  lemma FieldFold(h: Poseidon, leaf: Bytes32, path: seq<Bytes32>, bits: seq<nat>, k: nat)
    requires k <= |path| && k <= |bits|
    ensures Field32(Fold(BytesHasher(h), leaf, path, bits, k))
         == Fold(FieldHasher(h), Field32(leaf), FieldLeaves(path), bits, k)
  {
    BytesCarry(h);
    FoldCarried(Field32, BytesHasher(h), FieldHasher(h), leaf, path, bits, k);
  }
}

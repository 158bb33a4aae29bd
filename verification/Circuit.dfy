/**
 The withdrawal circuit as the system of field equations that circom emits, and
 its meaning: an if/else hash fold from the commitment to the root.
 */
module Circuit {
  import opened Field
  import opened MerkleSpec
  import opened Numbers
  import opened TreeHashes

  datatype Witness = Witness(secret: Fr, nullifier: Fr, path: seq<Fr>, bits: seq<Fr>)

  /** The intermediate signals that a prover assigns. */
  datatype Signals = Signals(
    hashes: seq<Fr>, lefts: seq<Fr>, rights: seq<Fr>,
    commitment: Fr, merkleRoot: Fr,
    recipientSquare: Fr, relayerSquare: Fr, feeSquare: Fr)

  /** Public inputs in declaration order: root, nullifier hash, recipient, relayer, fee. */
  type PublicInputs = s: seq<Fr> | |s| == 5 witness [0, 0, 0, 0, 0]

  function MuxLeft(current: Fr, sibling: Fr, bit: Fr): Fr {
    FAdd(current, FMul(FSub(sibling, current), bit))
  }

  function MuxRight(current: Fr, sibling: Fr, bit: Fr): Fr {
    FAdd(sibling, FMul(FSub(current, sibling), bit))
  }

  /** Constraints of one level of the inclusion template. */
  predicate LevelConstraints(h: Poseidon, sibling: Fr, bit: Fr, current: Fr, left: Fr, right: Fr, next: Fr) {
    && FMul(bit, FSub(1, bit)) == 0
    && left == MuxLeft(current, sibling, bit)
    && right == MuxRight(current, sibling, bit)
    && next == h.h2(left, right)
  }

  ghost predicate MerkleConstraints(
    h: Poseidon, depth: nat, leaf: Fr, path: seq<Fr>, bits: seq<Fr>, root: Fr,
    hashes: seq<Fr>, lefts: seq<Fr>, rights: seq<Fr>)
  {
    && |path| == |bits| == |lefts| == |rights| == depth && |hashes| == depth + 1
    && hashes[0] == leaf
    && (forall i :: 0 <= i < depth ==>
          LevelConstraints(h, path[i], bits[i], hashes[i], lefts[i], rights[i], hashes[i + 1]))
    && root == hashes[depth]
  }

  ghost predicate WithdrawConstraints(h: Poseidon, depth: nat, pub: PublicInputs, w: Witness, s: Signals) {
    && s.commitment == h.h2(w.secret, w.nullifier)
    && pub[1] == h.h1(w.nullifier)
    && MerkleConstraints(h, depth, s.commitment, w.path, w.bits, s.merkleRoot, s.hashes, s.lefts, s.rights)
    && pub[0] == s.merkleRoot
    && s.recipientSquare == FMul(pub[2], pub[2])
    && s.relayerSquare == FMul(pub[3], pub[3])
    && s.feeSquare == FMul(pub[4], pub[4])
  }

  /** The inputs can be completed by intermediate signals that meet every constraint. */
  ghost predicate Satisfies(h: Poseidon, depth: nat, pub: PublicInputs, w: Witness) {
    exists s :: WithdrawConstraints(h, depth, pub, w, s)
  }

  /** What the constraints mean, without signals or field arithmetic. */
  predicate Opens(h: Poseidon, depth: nat, pub: PublicInputs, w: Witness) {
    && |w.path| == |w.bits| == depth
    && Binary(w.bits)
    && pub[1] == h.h1(w.nullifier)
    && pub[0] == Fold(FieldHasher(h), h.h2(w.secret, w.nullifier), w.path, w.bits, depth)
  }

  // ----------------------------------------------------------- one level

  /** Over a prime field the binary constraint has exactly the roots 0 and 1. */
  lemma BinaryConstraint(bit: Fr)
    requires IsPrime(P)
    ensures FMul(bit, FSub(1, bit)) == 0 <==> bit <= 1
  {
    if FMul(bit, FSub(1, bit)) == 0 {
      EuclidLemma(P, bit, FSub(1, bit));
    }
  }

  lemma MuxSelects(current: Fr, sibling: Fr, bit: Fr)
    requires bit <= 1
    ensures MuxLeft(current, sibling, bit) == if bit == 0 then current else sibling
    ensures MuxRight(current, sibling, bit) == if bit == 0 then sibling else current
  {
    Blend(current, sibling, bit);
    Blend(sibling, current, bit);
  }

  lemma Blend(x: Fr, y: Fr, bit: Fr)
    requires bit <= 1
    ensures FAdd(x, FMul(FSub(y, x), bit)) == if bit == 0 then x else y
  {
    var d := FSub(y, x);
    assert d == y - x || d == y - x + P;
    assert FMul(d, bit) == if bit == 0 then 0 else d;
  }

  // ------------------------------------------------------- the whole fold

  lemma {:induction false} HashesFold(
    h: Poseidon, depth: nat, leaf: Fr, path: seq<Fr>, bits: seq<Fr>, root: Fr,
    hashes: seq<Fr>, lefts: seq<Fr>, rights: seq<Fr>, k: nat)
    requires IsPrime(P)
    requires MerkleConstraints(h, depth, leaf, path, bits, root, hashes, lefts, rights)
    requires k <= depth
    ensures hashes[k] == Fold(FieldHasher(h), leaf, path, bits, k)
  {
    if k > 0 {
      HashesFold(h, depth, leaf, path, bits, root, hashes, lefts, rights, k - 1);
      assert LevelConstraints(h, path[k - 1], bits[k - 1], hashes[k - 1], lefts[k - 1], rights[k - 1], hashes[k]);
      BinaryConstraint(bits[k - 1]);
      MuxSelects(hashes[k - 1], path[k - 1], bits[k - 1]);
    }
  }

  lemma BitsAreBinary(
    h: Poseidon, depth: nat, leaf: Fr, path: seq<Fr>, bits: seq<Fr>, root: Fr,
    hashes: seq<Fr>, lefts: seq<Fr>, rights: seq<Fr>)
    requires IsPrime(P)
    requires MerkleConstraints(h, depth, leaf, path, bits, root, hashes, lefts, rights)
    ensures Binary(bits)
  {
    forall i | 0 <= i < |bits|
      ensures bits[i] <= 1
    {
      assert LevelConstraints(h, path[i], bits[i], hashes[i], lefts[i], rights[i], hashes[i + 1]);
      BinaryConstraint(bits[i]);
    }
  }

  function HashChain(h: Poseidon, leaf: Fr, path: seq<Fr>, bits: seq<Fr>): (hashes: seq<Fr>)
    requires |path| == |bits|
    ensures |hashes| == |path| + 1
  {
    seq(|path| + 1, k requires 0 <= k <= |path| => Fold(FieldHasher(h), leaf, path, bits, k))
  }

  /** The selector outputs of every level, left or right. */
  function Selected(mux: (Fr, Fr, Fr) -> Fr, hashes: seq<Fr>, path: seq<Fr>, bits: seq<Fr>): (inputs: seq<Fr>)
    requires |path| == |bits| < |hashes|
    ensures |inputs| == |path|
  {
    seq(|path|, k requires 0 <= k < |path| => mux(hashes[k], path[k], bits[k]))
  }

  /** The assignment an honest prover computes. */
  function Assignment(h: Poseidon, pub: PublicInputs, w: Witness): Signals
    requires |w.path| == |w.bits|
  {
    var leaf := h.h2(w.secret, w.nullifier);
    var hashes := HashChain(h, leaf, w.path, w.bits);
    Signals(
      hashes,
      Selected(MuxLeft, hashes, w.path, w.bits),
      Selected(MuxRight, hashes, w.path, w.bits),
      leaf, hashes[|w.path|],
      FMul(pub[2], pub[2]), FMul(pub[3], pub[3]), FMul(pub[4], pub[4]))
  }

  /** Honest signals meet the constraints; this direction holds over any modulus. */
  lemma OpensSatisfies(h: Poseidon, depth: nat, pub: PublicInputs, w: Witness)
    requires Opens(h, depth, pub, w)
    ensures Satisfies(h, depth, pub, w)
  {
    var s := Assignment(h, pub, w);
    forall i | 0 <= i < depth
      ensures LevelConstraints(h, w.path[i], w.bits[i], s.hashes[i], s.lefts[i], s.rights[i], s.hashes[i + 1])
    {
      assert w.bits[i] <= 1;
      MuxSelects(s.hashes[i], w.path[i], w.bits[i]);
    }
    assert WithdrawConstraints(h, depth, pub, w, s);
  }

  /**
   The equations are satisfiable for given inputs exactly when the directions are
   bits and the commitment hashes up the path to the public root.
   */
  lemma CircuitMeaning(h: Poseidon, depth: nat, pub: PublicInputs, w: Witness)
    requires IsPrime(P)
    ensures Satisfies(h, depth, pub, w) <==> Opens(h, depth, pub, w)
  {
    if Satisfies(h, depth, pub, w) {
      var s :| WithdrawConstraints(h, depth, pub, w, s);
      BitsAreBinary(h, depth, s.commitment, w.path, w.bits, s.merkleRoot, s.hashes, s.lefts, s.rights);
      HashesFold(h, depth, s.commitment, w.path, w.bits, s.merkleRoot, s.hashes, s.lefts, s.rights, depth);
    }
    if Opens(h, depth, pub, w) {
      OpensSatisfies(h, depth, pub, w);
    }
  }
}

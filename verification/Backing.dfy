/**
 Backing of withdrawals: with a knowledge-sound verifier every accepted withdrawal
 opens a leaf that was deposited, and different nullifiers open different
 deposits. Where that fails, a concrete coincidence of Poseidon is computed from
 the run and the extracted witnesses.
 */
module Backing {
  import opened Circuit
  import opened Codec
  import opened Counting
  import opened Field
  import opened InputCodec
  import opened Ledger
  import opened LedgerRuns
  import opened MerkleBinding
  import opened MerkleSpec
  import opened Numbers
  import opened Searching
  import opened TreeHashes
  import opened Wrappers

  type Extractor = (ProofBytes, PublicInputs) -> Witness

  /** Every proof the verifier accepts comes with a witness of the circuit. */
  ghost predicate KnowledgeSound(env: Env, depth: nat, extract: Extractor) {
    forall proof, pub :: env.verify(proof, pub) ==> Satisfies(env.h, depth, pub, extract(proof, pub))
  }

  /** Position of the last occurrence. */
  function Find(roots: seq<Bytes32>, root: Bytes32): (j: nat)
    requires root in roots
    ensures j < |roots| && roots[j] == root
    ensures forall k :: j < k < |roots| ==> roots[k] != root
  {
    var n := |roots| - 1;
    if roots[n] == root then n else Find(roots[..n], root)
  }

  /** Two nullifiers, for the one-input hash. */
  datatype NullifierPair = NullifierPair(n: Fr, m: Fr)

  predicate Collides(h: Poseidon, x: NullifierPair) {
    x.n != x.m && h.h1(x.n) == h.h1(x.m)
  }

  /** A deposit history and the witnesses of the withdrawals made from it. */
  datatype Audit = Audit(env: Env, depth: nat, leaves: seq<Bytes32>, extract: Extractor) {

    function Hash(): Hasher<Fr> {
      FieldHasher(env.h)
    }

    function WitnessOf(s: Spend): Witness {
      extract(s.proof, SpendInputs(env, s))
    }

    /** Index of the leaf that the witness's directions lead to. */
    function LeafIndex(s: Spend): nat {
      var w := WitnessOf(s);
      if |w.bits| < depth then 0 else IndexOf(w.bits, depth)
    }

    function Nullifier(s: Spend): Fr {
      BytesToFr(s.nullifierHash)
    }

    /** The accepted withdrawal opens this deposit and reveals its nullifier's hash. */
    predicate Backed(s: Spend) {
      var (w, i) := (WitnessOf(s), LeafIndex(s));
      && i < |leaves|
      && Field32(leaves[i]) == env.h.h2(w.secret, w.nullifier)
      && Nullifier(s) == env.h.h1(w.nullifier)
    }

    /** The withdrawal's root was pushed and its witness opens the circuit's relation. */
    predicate Opening(s: Spend) {
      s.root in RootLog(env, depth, leaves) && Opens(env.h, depth, SpendInputs(env, s), WitnessOf(s))
    }

    // ------------------------------------------------------- the extractor

    /** Compares one opening with the tree its root was computed from. */
    function SpendCoincidence(s: Spend): Option<Coincidence<Fr>> {
      var w, log := WitnessOf(s), RootLog(env, depth, leaves);
      if s.root !in log || |w.path| != depth || |w.bits| != depth then None
      else
        var j := Find(log, s.root);
        var x := PathCollision(
          Hash(), FieldLeaves(leaves[..j]), 0, env.h.h2(w.secret, w.nullifier), w.path, w.bits, depth);
        if x.Some? then x
        else if LeafIndex(s) >= j then Some(ZeroPreimage(w.secret, w.nullifier))
        else None
    }

    /** Two withdrawals of one deposit with different nullifiers collide on its commitment. */
    function PairCoincidence(s: Spend, t: Spend): Option<Coincidence<Fr>> {
      var v, w := WitnessOf(s), WitnessOf(t);
      if LeafIndex(s) == LeafIndex(t) && Nullifier(s) != Nullifier(t)
      then Some(PairCollision(v.secret, v.nullifier, w.secret, w.nullifier))
      else None
    }

    function SpendTest(): Spend -> Option<Coincidence<Fr>> {
      (s: Spend) => SpendCoincidence(s)
    }

    function PairTest(): (Spend, Spend) -> Option<Coincidence<Fr>> {
      (s: Spend, t: Spend) => PairCoincidence(s, t)
    }

    /** The first coincidence that the accepted withdrawals exhibit, if any. */
    function Search(spends: seq<Spend>): Option<Coincidence<Fr>> {
      var x := FirstOf(SpendTest(), spends);
      if x.Some? then x else FirstPair(PairTest(), spends)
    }

    /** Different nullifiers behind one accepted residue collide under the one-input hash. */
    function NullifierCoincidence(s: Spend, t: Spend): Option<NullifierPair> {
      var n, m := WitnessOf(s).nullifier, WitnessOf(t).nullifier;
      if n != m && Nullifier(s) == Nullifier(t) then Some(NullifierPair(n, m)) else None
    }

    function NullifierTest(): (Spend, Spend) -> Option<NullifierPair> {
      (s: Spend, t: Spend) => NullifierCoincidence(s, t)
    }

    /** The first pair of nullifiers that the accepted withdrawals show to collide, if any. */
    function NullifierSearch(spends: seq<Spend>): Option<NullifierPair> {
      FirstPair(NullifierTest(), spends)
    }

    function LeafIndices(spends: seq<Spend>): (indices: seq<nat>)
      ensures |indices| == |spends|
    {
      seq(|spends|, i requires 0 <= i < |spends| => LeafIndex(spends[i]))
    }

    function Nullifiers(spends: seq<Spend>): (nullifiers: seq<Fr>)
      ensures |nullifiers| == |spends|
    {
      seq(|spends|, i requires 0 <= i < |spends| => Nullifier(spends[i]))
    }
  }

  // -------------------------------------------------------- one withdrawal

  /** The witness's path folds to the field root of the history its root comes from. */
  lemma OpeningFolds(a: Audit, s: Spend, j: nat)
    requires a.Opening(s)
    requires j <= |a.leaves| && RootLog(a.env, a.depth, a.leaves)[j] == s.root
    ensures var w := a.WitnessOf(s);
      Fold(a.Hash(), a.env.h.h2(w.secret, w.nullifier), w.path, w.bits, a.depth)
        == Root(a.Hash(), a.depth, FieldLeaves(a.leaves[..j]))
  {
    RootOnField(a.env.h, a.depth, a.leaves[..j]);
  }

  lemma SpendBacked(a: Audit, s: Spend)
    requires a.Opening(s)
    ensures match a.SpendCoincidence(s)
      case Some(x) => Genuine(a.Hash(), x)
      case None => a.Backed(s)
  {
    var w, j := a.WitnessOf(s), Find(RootLog(a.env, a.depth, a.leaves), s.root);
    OpeningFolds(a, s, j);
    LeafOpened(a, j, FieldLeaves(a.leaves[..j]), a.env.h.h2(w.secret, w.nullifier), w.path, w.bits);
  }

  /** The opened leaf is an empty one, the one the directions spell, or a collision is computed. */
  lemma LeafOpened(a: Audit, j: nat, tree: seq<Fr>, leaf: Fr, path: seq<Fr>, bits: seq<Fr>)
    requires |tree| == j && |path| == |bits| == a.depth && Binary(bits)
    requires Fold(a.Hash(), leaf, path, bits, a.depth) == Root(a.Hash(), a.depth, tree)
    ensures match PathCollision(a.Hash(), tree, 0, leaf, path, bits, a.depth)
      case Some(x) => Genuine(a.Hash(), x)
      case None =>
        var i := IndexOf(bits, a.depth);
        leaf == if i < j then tree[i] else a.env.h.h1(0)
  {
    PathBinds(a.Hash(), tree, 0, leaf, path, bits, a.depth);
  }

  lemma PairGenuine(a: Audit, s: Spend, t: Spend)
    requires a.Backed(s) && a.Backed(t)
    requires a.PairCoincidence(s, t).Some?
    ensures Genuine(a.Hash(), a.PairCoincidence(s, t).value)
  {
  }

  // --------------------------------------------------------- the whole log

  ghost predicate Separate(a: Audit, s: Spend, t: Spend) {
    a.LeafIndex(s) == a.LeafIndex(t) ==> a.Nullifier(s) == a.Nullifier(t)
  }

  ghost predicate EachOpening(a: Audit, spends: seq<Spend>) {
    forall i :: 0 <= i < |spends| ==> a.Opening(spends[i])
  }

  ghost predicate EachBacked(a: Audit, spends: seq<Spend>) {
    forall i :: 0 <= i < |spends| ==> a.Backed(spends[i])
  }

  ghost predicate AllSeparate(a: Audit, spends: seq<Spend>) {
    forall i, j :: 0 <= i < j < |spends| ==> Separate(a, spends[i], spends[j])
  }

  lemma SinglesSound(a: Audit, spends: seq<Spend>)
    requires EachOpening(a, spends)
    ensures match FirstOf(a.SpendTest(), spends)
      case Some(x) => Genuine(a.Hash(), x)
      case None => EachBacked(a, spends)
  {
    FirstOfFinds(a.SpendTest(), spends);
    forall i | 0 <= i < |spends|
      ensures match a.SpendTest()(spends[i])
        case Some(x) => Genuine(a.Hash(), x)
        case None => a.Backed(spends[i])
    {
      SpendBacked(a, spends[i]);
    }
  }

  lemma PairsSound(a: Audit, spends: seq<Spend>)
    requires EachBacked(a, spends)
    ensures match FirstPair(a.PairTest(), spends)
      case Some(x) => Genuine(a.Hash(), x)
      case None => AllSeparate(a, spends)
  {
    FirstPairFinds(a.PairTest(), spends);
    forall i, j | 0 <= i < j < |spends|
      ensures match a.PairTest()(spends[i], spends[j])
        case Some(x) => Genuine(a.Hash(), x)
        case None => Separate(a, spends[i], spends[j])
    {
      if a.PairCoincidence(spends[i], spends[j]).Some? {
        PairGenuine(a, spends[i], spends[j]);
      }
    }
  }

  lemma SearchSound(a: Audit, spends: seq<Spend>)
    requires EachOpening(a, spends)
    ensures match a.Search(spends)
      case Some(x) => Genuine(a.Hash(), x)
      case None => EachBacked(a, spends) && AllSeparate(a, spends)
  {
    SinglesSound(a, spends);
    if FirstOf(a.SpendTest(), spends).None? {
      PairsSound(a, spends);
    }
  }

  /** Equal residues stand for equal nullifiers, or the search exhibits a collision. */
  lemma NullifierSearchSound(a: Audit, spends: seq<Spend>)
    requires EachBacked(a, spends)
    ensures match a.NullifierSearch(spends)
      case Some(x) => Collides(a.env.h, x)
      case None => forall i, j :: 0 <= i < j < |spends| && a.Nullifier(spends[i]) == a.Nullifier(spends[j]) ==>
        a.WitnessOf(spends[i]).nullifier == a.WitnessOf(spends[j]).nullifier
  {
    FirstPairFinds(a.NullifierTest(), spends);
    forall i, j | 0 <= i < j < |spends|
      ensures match a.NullifierTest()(spends[i], spends[j])
        case Some(x) => Collides(a.env.h, x)
        case None => a.Nullifier(spends[i]) == a.Nullifier(spends[j]) ==>
          a.WitnessOf(spends[i]).nullifier == a.WitnessOf(spends[j]).nullifier
    {
      assert a.Backed(spends[i]) && a.Backed(spends[j]);
    }
  }

  function AuditOf(env: Env, s: State, extract: Extractor): Audit
    requires s.config.Some?
  {
    Audit(env, s.config.value.depth, s.leaves, extract)
  }

  /** Backed and separate withdrawals spend no more nullifiers than deposits. */
  lemma BackedCounts(a: Audit, spends: seq<Spend>)
    requires EachBacked(a, spends) && AllSeparate(a, spends)
    ensures |SetOf(a.Nullifiers(spends))| <= |SetOf(a.LeafIndices(spends))| <= |a.leaves|
    ensures SetOf(a.LeafIndices(spends)) <= Below(|a.leaves|)
  {
    var indices, nullifiers := a.LeafIndices(spends), a.Nullifiers(spends);
    forall i, j | 0 <= i < j < |indices| && indices[i] == indices[j]
      ensures nullifiers[i] == nullifiers[j]
    {
      assert Separate(a, spends[i], spends[j]);
    }
    DeterminedCount(nullifiers, indices);
    forall i | i in indices
      ensures i in Below(|a.leaves|)
    {
      var k :| 0 <= k < |indices| && indices[k] == i;
      assert a.Backed(spends[k]);
    }
    SubsetCount(SetOf(indices), Below(|a.leaves|));
  }

  /** With a sound verifier every accepted withdrawal of a run is an opening. */
  lemma RunOpens(env: Env, pool: Address, s: State, calls: seq<Call>, extract: Extractor)
    requires IsPrime(P) && Genesis(s)
    requires Run(env, pool, s, calls).config.Some?
    requires KnowledgeSound(env, Run(env, pool, s, calls).config.value.depth, extract)
    ensures var s' := Run(env, pool, s, calls);
      EachOpening(AuditOf(env, s', extract), s'.spends)
  {
    RunKeepsInv(env, pool, s, calls);
    var s' := Run(env, pool, s, calls);
    var a := AuditOf(env, s', extract);
    forall i | 0 <= i < |s'.spends|
      ensures a.Opening(s'.spends[i])
    {
      var w := s'.spends[i];
      assert Checked(env, s'.config.value, s'.leaves, w);
      CircuitMeaning(env.h, a.depth, SpendInputs(env, w), a.WitnessOf(w));
    }
  }

  /**
   Backing over every run. Either the search exhibits a genuine coincidence, or each
   accepted withdrawal opens a deposited leaf, withdrawals with different nullifiers
   open different deposits, and there are at most as many nullifiers as deposits.
   */
  lemma WithdrawalsAreBacked(env: Env, pool: Address, s: State, calls: seq<Call>, extract: Extractor)
    requires IsPrime(P) && Genesis(s)
    requires Run(env, pool, s, calls).config.Some?
    requires KnowledgeSound(env, Run(env, pool, s, calls).config.value.depth, extract)
    ensures var s' := Run(env, pool, s, calls);
      var a := AuditOf(env, s', extract);
      match a.Search(s'.spends)
      case Some(x) => Genuine(a.Hash(), x)
      case None =>
        && EachBacked(a, s'.spends) && AllSeparate(a, s'.spends)
        && |SetOf(a.Nullifiers(s'.spends))| <= |SetOf(a.LeafIndices(s'.spends))| <= |s'.leaves|
  {
    var s' := Run(env, pool, s, calls);
    var a := AuditOf(env, s', extract);
    RunOpens(env, pool, s, calls, extract);
    SearchSound(a, s'.spends);
    if a.Search(s'.spends).None? {
      BackedCounts(a, s'.spends);
    }
  }
}

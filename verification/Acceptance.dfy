/**
 From deposit to withdrawal: the path a synchronized indexer returns satisfies the
 circuit, and its root stays acceptable for exactly as many later deposits as the
 root history has room for, whatever withdrawals come in between.
 */
module Acceptance {
  import opened Backing
  import opened Circuit
  import opened Codec
  import opened Field
  import opened InputCodec
  import opened Ledger
  import opened LedgerRuns
  import opened MerkleBinding
  import opened MerkleSpec
  import opened Numbers
  import opened PoolHistory
  import opened SingleWithdrawal
  import opened TreeHashes
  import opened Wrappers

  // ------------------------------------------------------ the honest prover

  type Prover = (PublicInputs, Witness) -> ProofBytes

  /** The verifier accepts the proof of every satisfiable statement. */
  ghost predicate Complete(env: Env, depth: nat, prove: Prover) {
    forall pub, w :: Satisfies(env.h, depth, pub, w) ==> env.verify(prove(pub, w), pub)
  }

  /** A deposit note: the two secrets of a commitment. */
  datatype Note = Note(secret: Fr, nullifier: Fr)

  function NullifierHash(h: Poseidon, note: Note): Fr {
    h.h1(note.nullifier)
  }

  function FieldBits(bits: seq<nat>): (r: seq<Fr>)
    requires Binary(bits)
    ensures r == bits
  {
    bits
  }

  /** The circuit's private inputs, from a note and an indexer's answer. */
  function HonestWitness(note: Note, proof: MerkleProof<Bytes32>): Witness
    requires Binary(proof.bits)
  {
    Witness(note.secret, note.nullifier, FieldLeaves(proof.path), FieldBits(proof.bits))
  }

  /** What the client asks to withdraw: integers read from the indexer's answer. */
  function HonestRequest(
    h: Poseidon, note: Note, proof: MerkleProof<Bytes32>, recipient: Address, relayer: Address, fee: nat): Withdrawal
  {
    Withdrawal(FromBE(proof.root), NullifierHash(h, note), recipient, relayer, fee)
  }

  /** The call the client submits. */
  function HonestSpend(
    env: Env, prove: Prover, note: Note, proof: MerkleProof<Bytes32>,
    recipient: Address, relayer: Address, fee: i128): Spend
    requires Binary(proof.bits) && fee >= 0
  {
    var request := HonestRequest(env.h, note, proof, recipient, relayer, fee);
    Spend(
      prove(ProverInputs(env, request), HonestWitness(note, proof)),
      ToBytes32(request.root), ToBytes32(request.nullifierHash), recipient, relayer, fee)
  }

  /** Deposit i commits to the note. */
  predicate Commits(h: Poseidon, leaves: seq<Bytes32>, i: nat, note: Note) {
    i < |leaves| && Field32(leaves[i]) == h.h2(note.secret, note.nullifier)
  }

  /** The indexer's path opens its root for the note, whatever the other public inputs. */
  lemma PathOpensRoot(h: Poseidon, depth: nat, leaves: seq<Bytes32>, i: nat, note: Note, pub: PublicInputs)
    requires Commits(h, leaves, i, note) && i < Pow2(depth)
    requires pub[0] == BytesToFr(Root(BytesHasher(h), depth, leaves))
    requires pub[1] == NullifierHash(h, note)
    ensures var proof := SpecProof(BytesHasher(h), depth, leaves, i);
      Binary(proof.bits) && Opens(h, depth, pub, HonestWitness(note, proof))
  {
    var proof := SpecProof(BytesHasher(h), depth, leaves, i);
    ProofComplete(BytesHasher(h), depth, leaves, i);
    FieldFold(h, leaves[i], proof.path, proof.bits, depth);
  }

  /** The indexer's path satisfies the circuit for the client's public inputs. */
  lemma IndexerPathSatisfies(
    env: Env, depth: nat, leaves: seq<Bytes32>, i: nat, note: Note,
    recipient: Address, relayer: Address, fee: nat)
    requires Commits(env.h, leaves, i, note) && i < Pow2(depth)
    ensures var proof := SpecProof(BytesHasher(env.h), depth, leaves, i);
      var request := HonestRequest(env.h, note, proof, recipient, relayer, fee);
      && Binary(proof.bits)
      && Satisfies(env.h, depth, ProverInputs(env, request), HonestWitness(note, proof))
  {
    var proof := SpecProof(BytesHasher(env.h), depth, leaves, i);
    var pub := ProverInputs(env, HonestRequest(env.h, note, proof, recipient, relayer, fee));
    assert pub[1] == NullifierHash(env.h, note);
    PathOpensRoot(env.h, depth, leaves, i, note, pub);
    OpensSatisfies(env.h, depth, pub, HonestWitness(note, proof));
  }

  /** The honest call carries the indexer's root and scalars the verifier accepts. */
  lemma HonestSpendVerifies(
    env: Env, depth: nat, prove: Prover, leaves: seq<Bytes32>, i: nat, note: Note,
    recipient: Address, relayer: Address, fee: i128)
    requires Complete(env, depth, prove)
    requires Commits(env.h, leaves, i, note) && i < Pow2(depth)
    requires |recipient| <= 56 && |relayer| <= 56 && fee >= 0
    ensures var proof := SpecProof(BytesHasher(env.h), depth, leaves, i);
      && Binary(proof.bits)
      && var w := HonestSpend(env, prove, note, proof, recipient, relayer, fee);
      && w.root == Root(BytesHasher(env.h), depth, leaves)
      && env.verify(w.proof, SpendInputs(env, w))
  {
    var proof := SpecProof(BytesHasher(env.h), depth, leaves, i);
    var request := HonestRequest(env.h, note, proof, recipient, relayer, fee);
    IndexerPathSatisfies(env, depth, leaves, i, note, recipient, relayer, fee);
    WordSizes();
    FromBEBound(proof.root);
    ToBEFromBE(proof.root);
    InputsAgree(env, request);
  }

  // -------------------------------------------------------- known and expired

  /** A root is known while fewer later deposits than the history size were accepted. */
  lemma KnownWhileInWindow(env: Env, c: Config, leaves: seq<Bytes32>, more: seq<Bytes32>)
    requires |more| < c.historySize
    ensures KnownRoot(env, c, leaves + more, Root(BytesHasher(env.h), c.depth, leaves))
  {
    var all := leaves + more;
    var log := RootLog(env, c.depth, all);
    RootLogGrows(env, c.depth, leaves, more, |leaves|);
    assert leaves[..|leaves|] == leaves;
    assert log[|leaves|] == Root(BytesHasher(env.h), c.depth, leaves);
    if |log| > c.historySize {
      var start := |log| - c.historySize;
      assert log[start..][|leaves| - start] == log[|leaves|];
    }
  }

  /** No deposited commitment stands for the empty leaf. */
  ghost predicate NoneEmpty(h: Poseidon, leaves: seq<Bytes32>) {
    forall i :: 0 <= i < |leaves| ==> Field32(leaves[i]) != h.h1(0)
  }

  function RootsCollision(h: Poseidon, depth: nat, leaves: seq<Bytes32>, j: nat, k: nat): Option<Coincidence<Fr>>
    requires j <= |leaves| && k <= |leaves|
  {
    TreeCollision(FieldHasher(h), FieldLeaves(leaves)[..j], FieldLeaves(leaves)[..k], j, depth)
  }

  /** Roots after different numbers of deposits differ, or a collision is exhibited. */
  lemma RootsDiffer(env: Env, depth: nat, leaves: seq<Bytes32>, j: nat, k: nat)
    requires j < k <= |leaves| && j < Pow2(depth)
    requires NoneEmpty(env.h, leaves)
    requires RootLog(env, depth, leaves)[j] == RootLog(env, depth, leaves)[k]
    ensures var x := RootsCollision(env.h, depth, leaves, j, k);
      x.Some? && Genuine(FieldHasher(env.h), x.value)
  {
    var fields := FieldLeaves(leaves);
    RootOnField(env.h, depth, leaves[..j]);
    RootOnField(env.h, depth, leaves[..k]);
    assert FieldLeaves(leaves[..j]) == fields[..j];
    assert FieldLeaves(leaves[..k]) == fields[..k];
    LaterRootsDiffer(FieldHasher(env.h), depth, fields, j, k);
  }

  function ExpiryCollision(env: Env, c: Config, leaves: seq<Bytes32>, m: nat): Option<Coincidence<Fr>>
    requires m <= |leaves|
  {
    var log := RootLog(env, c.depth, leaves);
    RootsCollision(env.h, c.depth, leaves, m, Find(log, log[m]))
  }

  /**
   Exact expiry: the root after m deposits is known exactly until the size-th later
   deposit. Were it known afterwards, the two trees would exhibit a collision.
   */
  lemma ExactExpiry(env: Env, c: Config, leaves: seq<Bytes32>, m: nat)
    requires ValidConfig(c) && |leaves| <= Capacity(c.depth) && m <= |leaves|
    requires NoneEmpty(env.h, leaves)
    ensures var known := KnownRoot(env, c, leaves, RootLog(env, c.depth, leaves)[m]);
      && (|leaves| < m + c.historySize ==> known)
      && (|leaves| >= m + c.historySize && known ==>
            var x := ExpiryCollision(env, c, leaves, m);
            x.Some? && Genuine(FieldHasher(env.h), x.value))
  {
    var log := RootLog(env, c.depth, leaves);
    var known := KnownRoot(env, c, leaves, log[m]);
    if |leaves| < m + c.historySize {
      assert leaves == leaves[..m] + leaves[m..];
      KnownWhileInWindow(env, c, leaves[..m], leaves[m..]);
    } else if known {
      LateRootRepeats(log, c.historySize, m);
      CapacityBounds(c.depth);
      RootsDiffer(env, c.depth, leaves, m, Find(log, log[m]));
    }
  }

  /** A root that has left the window but is still in it was pushed again. */
  lemma LateRootRepeats(log: seq<Bytes32>, size: nat, m: nat)
    requires m + size < |log| && log[m] in Window(log, size)
    ensures Find(log, log[m]) > m
  {
    var start := |log| - size;
    var d :| 0 <= d < size && log[start..][d] == log[m];
    assert log[start + d] == log[m];
  }

  // -------------------------------------------------------------- end to end

  /**
   End to end. A note deposited before state s, withdrawn with the indexer's answer
   for s after any further calls with fewer accepted deposits than the history size,
   is refused only for a spent nullifier, an excessive fee or a failing transfer.
   */
  lemma HonestWithdrawalAccepted(
    env: Env, pool: Address, s: State, calls: seq<Call>, prove: Prover, i: nat, note: Note,
    recipient: Address, relayer: Address, fee: i128)
    requires Configured(s) && Inv(env, s) && s.config.Some?
    requires Complete(env, s.config.value.depth, prove)
    requires Commits(env.h, s.leaves, i, note)
    requires |recipient| <= 56 && |relayer| <= 56 && fee >= 0
    requires |Deposited(env, pool, s, calls)| < s.config.value.historySize
    ensures var (c, s') := (s.config.value, Run(env, pool, s, calls));
      var proof := SpecProof(BytesHasher(env.h), c.depth, s.leaves, i);
      && Binary(proof.bits)
      && var w := HonestSpend(env, prove, note, proof, recipient, relayer, fee);
      ReplyTo(env, pool, s', Call.Withdraw(w)) ==
        if w.nullifierHash in SpentSet(s'.spends) then Err(NullifierSpent)
        else if fee > c.maxFee then Err(FeeTooHigh)
        else if Payout(s'.balances, pool, recipient, relayer, c.denomination, fee).None? then Trap
        else Ok
  {
    var c := s.config.value;
    CapacityBounds(c.depth);
    HonestSpendVerifies(env, c.depth, prove, s.leaves, i, note, recipient, relayer, fee);
    RunAppends(env, pool, s, calls);
    KnownWhileInWindow(env, c, s.leaves, Deposited(env, pool, s, calls));
  }

  /**
   From deployment on, an honest withdrawal succeeds: the pool is funded as long as
   more deposits than withdrawals were accepted, and recipient and relayer get their
   shares of the denomination. What remains is a nullifier that was
   already spent, under the very encoding the client uses.
   */
  lemma HonestWithdrawalPaid(
    env: Env, pool: Address, genesis: State, before: seq<Call>, calls: seq<Call>, prove: Prover,
    i: nat, note: Note, recipient: Address, relayer: Address, fee: i128)
    requires Genesis(genesis)
    requires Run(env, pool, genesis, before).config.Some?
    requires Complete(env, Run(env, pool, genesis, before).config.value.depth, prove)
    requires Commits(env.h, Run(env, pool, genesis, before).leaves, i, note)
    requires |recipient| <= 56 && |relayer| <= 56
    requires var s := Run(env, pool, genesis, before);
      var (c, s') := (s.config.value, Run(env, pool, s, calls));
      && |Deposited(env, pool, s, calls)| < c.historySize
      && 0 <= fee <= c.maxFee && fee <= c.denomination
      && |s'.spends| < |s'.leaves|
      && Balance(s'.balances, recipient) + c.denomination <= I128_MAX
      && Balance(s'.balances, relayer) + c.denomination <= I128_MAX
    ensures var s := Run(env, pool, genesis, before);
      var s' := Run(env, pool, s, calls);
      var proof := SpecProof(BytesHasher(env.h), s.config.value.depth, s.leaves, i);
      && Binary(proof.bits)
      && var w := HonestSpend(env, prove, note, proof, recipient, relayer, fee);
      && ReplyTo(env, pool, s', Call.Withdraw(w))
           == (if w.nullifierHash in SpentSet(s'.spends) then Err(NullifierSpent) else Ok)
      && (w.nullifierHash !in SpentSet(s'.spends) ==>
            PaidOut(s'.balances, Next(env, pool, s', Call.Withdraw(w)).balances, pool,
              recipient, relayer, s.config.value.denomination, fee))
  {
    var s := Run(env, pool, genesis, before);
    var s' := Run(env, pool, s, calls);
    RunKeepsInv(env, pool, genesis, before);
    RunConserves(env, pool, genesis, before);
    RunConserves(env, pool, s, calls);
    RunAppends(env, pool, s, calls);
    HonestWithdrawalAccepted(env, pool, s, calls, prove, i, note, recipient, relayer, fee);
    ProductAtLeast(Unit(s'), Outstanding(s'));
    PayoutSucceeds(s'.balances, pool, recipient, relayer, s.config.value.denomination, fee);
    var w := HonestSpend(env, prove, note,
      SpecProof(BytesHasher(env.h), s.config.value.depth, s.leaves, i), recipient, relayer, fee);
    if w.nullifierHash !in SpentSet(s'.spends) {
      WithdrawalPays(env, pool, s', w);
    }
  }

  /**
   Another deposit than i was opened with this nullifier hash, and with this very
   nullifier, unless the two nullifiers are an exhibited collision.
   */
  ghost predicate SharedNullifier(a: Audit, spends: seq<Spend>, i: nat, note: Note) {
    exists k :: 0 <= k < |spends|
      && spends[k].nullifierHash == ToBytes32(NullifierHash(a.env.h, note))
      && a.Backed(spends[k]) && a.LeafIndex(spends[k]) != i
      && (a.WitnessOf(spends[k]).nullifier == note.nullifier
          || Collides(a.env.h, NullifierPair(a.WitnessOf(spends[k]).nullifier, note.nullifier)))
  }

  /**
   Every deposit can leave. With a sound and complete proof system, and unless the run
   exhibits a coincidence of Poseidon: the honest owner of a deposit that no accepted
   withdrawal opens is paid, whatever happened before and after the deposit, if no
   deposit was withdrawn twice, in particular if the accepted nullifier hashes are
   incongruent; it is enough that fewer withdrawals repeat a deposit than deposits are
   unspent. The one exception is a nullifier already used to withdraw another deposit,
   or one that collides with the nullifier of another withdrawn deposit.
   */
  lemma UnopenedDepositIsPaid(
    env: Env, pool: Address, genesis: State, before: seq<Call>, calls: seq<Call>, prove: Prover, extract: Extractor,
    i: nat, note: Note, recipient: Address, relayer: Address, fee: i128)
    requires IsPrime(P) && Genesis(genesis)
    requires Run(env, pool, genesis, before).config.Some?
    requires Complete(env, Run(env, pool, genesis, before).config.value.depth, prove)
    requires KnowledgeSound(env, Run(env, pool, genesis, before).config.value.depth, extract)
    requires Commits(env.h, Run(env, pool, genesis, before).leaves, i, note)
    requires |recipient| <= 56 && |relayer| <= 56
    requires var s := Run(env, pool, genesis, before);
      var (c, s') := (s.config.value, Run(env, pool, s, calls));
      && |Deposited(env, pool, s, calls)| < c.historySize
      && 0 <= fee <= c.maxFee && fee <= c.denomination
      && Balance(s'.balances, recipient) + c.denomination <= I128_MAX
      && Balance(s'.balances, relayer) + c.denomination <= I128_MAX
    ensures var s := Run(env, pool, genesis, before);
      var s' := Run(env, pool, s, calls);
      var proof := SpecProof(BytesHasher(env.h), s.config.value.depth, s.leaves, i);
      && s'.config == s.config && Binary(proof.bits)
      && var (a, hash) := (AuditOf(env, s', extract), ToBytes32(NullifierHash(env.h, note)));
      match a.Search(s'.spends)
      case Some(x) => Genuine(a.Hash(), x)
      case None =>
        && (Incongruent(s'.spends) ==> OncePerDeposit(a, s'.spends))
        && (i !in a.LeafIndices(s'.spends) && OncePerDeposit(a, s'.spends) ==>
              Repeats(a, s'.spends) < |Unspent(a, s'.spends)|)
        && (Repeats(a, s'.spends) < |Unspent(a, s'.spends)| ==>
              ReplyTo(env, pool, s', Call.Withdraw(HonestSpend(env, prove, note, proof, recipient, relayer, fee)))
                == if hash in SpentSet(s'.spends) then Err(NullifierSpent) else Ok)
        && (i !in a.LeafIndices(s'.spends) && hash in SpentSet(s'.spends) ==>
              SharedNullifier(a, s'.spends, i, note))
  {
    var s := Run(env, pool, genesis, before);
    var s' := Run(env, pool, s, calls);
    RunConcat(env, pool, genesis, before, calls);
    RunAppends(env, pool, s, calls);
    WithdrawalsAreBacked(env, pool, genesis, before + calls, extract);
    CapacityBounds(s.config.value.depth);
    RunKeepsInv(env, pool, genesis, before);
    ProofComplete(BytesHasher(env.h), s.config.value.depth, s.leaves, i);
    var a := AuditOf(env, s', extract);
    if a.Search(s'.spends).None? {
      RoomIffUnspent(a, s'.spends, i);
      IncongruentIff(a, s'.spends);
      if Repeats(a, s'.spends) < |Unspent(a, s'.spends)| {
        HonestWithdrawalPaid(env, pool, genesis, before, calls, prove, i, note, recipient, relayer, fee);
      }
      var hash := ToBytes32(NullifierHash(env.h, note));
      if i !in a.LeafIndices(s'.spends) && hash in SpentSet(s'.spends) {
        HashTaken(a, s'.spends, i, note);
      }
    }
  }

  lemma RoomIffUnspent(a: Audit, spends: seq<Spend>, i: nat)
    requires EachBacked(a, spends) && AllSeparate(a, spends)
    requires i < |a.leaves|
    ensures Repeats(a, spends) < |Unspent(a, spends)| <==> |spends| < |a.leaves|
    ensures i !in a.LeafIndices(spends) && OncePerDeposit(a, spends) ==>
      Repeats(a, spends) < |Unspent(a, spends)|
  {
    UnspentCount(a, spends);
    NoRepeatsIff(a, spends);
    if i !in a.LeafIndices(spends) {
      assert i in Unspent(a, spends);
    }
  }

  lemma HashTaken(a: Audit, spends: seq<Spend>, i: nat, note: Note)
    requires EachBacked(a, spends)
    requires i !in a.LeafIndices(spends)
    requires ToBytes32(NullifierHash(a.env.h, note)) in SpentSet(spends)
    ensures SharedNullifier(a, spends, i, note)
  {
    var hash := ToBytes32(NullifierHash(a.env.h, note));
    var t :| t in spends && t.nullifierHash == hash;
    var k :| 0 <= k < |spends| && spends[k] == t;
    assert a.LeafIndices(spends)[k] == a.LeafIndex(spends[k]);
    FrRoundTrip(NullifierHash(a.env.h, note));
    assert a.Backed(spends[k]) && a.Nullifier(spends[k]) == NullifierHash(a.env.h, note);
  }

  /**
   The honest withdrawal of a pool with room for two is one that can be repeated: no
   part of the double withdrawal depends on a proof the owner would not make.
   */
  lemma HonestWithdrawalRepeats(
    env: Env, pool: Address, genesis: State, before: seq<Call>, prove: Prover, extract: Extractor,
    i: nat, note: Note, recipient: Address, relayer: Address, fee: i128) returns (w: Spend, again: Bytes32)
    requires Genesis(genesis)
    requires Run(env, pool, genesis, before).config.Some?
    requires Complete(env, Run(env, pool, genesis, before).config.value.depth, prove)
    requires Commits(env.h, Run(env, pool, genesis, before).leaves, i, note)
    requires |recipient| <= 56 && |relayer| <= 56
    requires var s := Run(env, pool, genesis, before);
      && 0 <= fee <= s.config.value.maxFee && fee <= s.config.value.denomination
      && |s.spends| + 1 < |s.leaves|
      && Balance(s.balances, recipient) + 2 * s.config.value.denomination <= I128_MAX
      && Balance(s.balances, relayer) + 2 * s.config.value.denomination <= I128_MAX
      && ResidueFresh(s.spends, ToBytes32(NullifierHash(env.h, note)))
    ensures var (s, w') := (Run(env, pool, genesis, before), w.(nullifierHash := again));
      var s2 := Run(env, pool, genesis, before + [Call.Withdraw(w), Call.Withdraw(w')]);
      && s2.config == s.config
      && s2.spends == s.spends + [w, w']
      && AuditOf(env, s2, extract).LeafIndex(w) == AuditOf(env, s2, extract).LeafIndex(w')
  {
    var s := Run(env, pool, genesis, before);
    CapacityBounds(s.config.value.depth);
    RunKeepsInv(env, pool, genesis, before);
    ProofComplete(BytesHasher(env.h), s.config.value.depth, s.leaves, i);
    var proof := SpecProof(BytesHasher(env.h), s.config.value.depth, s.leaves, i);
    w := HonestSpend(env, prove, note, proof, recipient, relayer, fee);
    FrRoundTrip(NullifierHash(env.h, note));
    FreshResidueIsFresh(s.spends, w.nullifierHash, w.nullifierHash);
    HonestWithdrawalPaid(env, pool, genesis, before, [], prove, i, note, recipient, relayer, fee);
    AcceptsAfterIff(env, pool, genesis, before, w);
    again := DepositWithdrawnTwice(env, pool, genesis, before, w, extract);
    FreshResidueIsFresh(s.spends, w.nullifierHash, again);
  }

  lemma FreshResidueIsFresh(spends: seq<Spend>, nullifierHash: Bytes32, again: Bytes32)
    requires ResidueFresh(spends, nullifierHash)
    requires BytesToFr(again) == BytesToFr(nullifierHash)
    ensures again !in SpentSet(spends)
  {
    assert forall i :: 0 <= i < |spends| ==> spends[i].nullifierHash != again;
  }
}

/**
 Commitments, too, are compared as bytes by the pool and as residues by everything
 else: when leaves are different mod p, and what becomes of two that are not.
 */
module TwinDeposits {
  import opened Acceptance
  import opened Codec
  import opened Counting
  import opened Field
  import opened InputCodec
  import opened Ledger
  import opened LedgerRuns
  import opened MerkleSpec
  import opened Numbers
  import opened SingleWithdrawal
  import opened TreeHashes

  /** The leaves are pairwise different mod p. */
  ghost predicate IncongruentLeaves(leaves: seq<Bytes32>) {
    forall i, j :: 0 <= i < j < |leaves| ==> Field32(leaves[i]) != Field32(leaves[j])
  }

  /** Over every run canonical commitments are pairwise different mod p. */
  lemma CanonicalLeavesDiffer(env: Env, pool: Address, s: State, calls: seq<Call>)
    requires Genesis(s)
    requires forall i :: 0 <= i < |Run(env, pool, s, calls).leaves| ==> Canonical(Run(env, pool, s, calls).leaves[i])
    ensures IncongruentLeaves(Run(env, pool, s, calls).leaves)
  {
    RunKeepsInv(env, pool, s, calls);
    var leaves := Run(env, pool, s, calls).leaves;
    forall i, j | 0 <= i < j < |leaves|
      ensures Field32(leaves[i]) != Field32(leaves[j])
    {
      CanonicalInjective(leaves[i], leaves[j]);
    }
  }

  /** After these calls the pool accepts the deposit: one more call appends the leaf. */
  ghost predicate DepositsAfter(
    env: Env, pool: Address, genesis: State, calls: seq<Call>, depositor: Address, commitment: Bytes32)
    requires Configured(genesis)
  {
    Run(env, pool, genesis, calls + [Call.Deposit(depositor, commitment, true)]).leaves
      == Run(env, pool, genesis, calls).leaves + [commitment]
  }

  lemma DepositsAfterIff(
    env: Env, pool: Address, genesis: State, calls: seq<Call>, depositor: Address, commitment: Bytes32)
    requires Configured(genesis)
    ensures DepositsAfter(env, pool, genesis, calls, depositor, commitment) <==>
      ReplyTo(env, pool, Run(env, pool, genesis, calls), Call.Deposit(depositor, commitment, true)) == Ok
  {
    RunOneMore(env, pool, genesis, calls, Call.Deposit(depositor, commitment, true));
    StepAppends(env, pool, Run(env, pool, genesis, calls), Call.Deposit(depositor, commitment, true));
  }

  /**
   The check the deposit would need: in every reachable state an accepted deposit keeps
   the leaves different mod p exactly when none of the commitment's encodings is an
   inserted key. The pool asks this of one encoding, the commitment's own bytes, which
   an accepted deposit therefore never shares.
   */
  lemma AcceptedDepositIff(
    env: Env, pool: Address, genesis: State, calls: seq<Call>, depositor: Address, commitment: Bytes32)
    requires Genesis(genesis)
    requires DepositsAfter(env, pool, genesis, calls, depositor, commitment)
    requires IncongruentLeaves(Run(env, pool, genesis, calls).leaves)
    ensures var inserted := SetOf(Run(env, pool, genesis, calls).leaves);
      && commitment in Encodings(commitment) && commitment !in inserted
      && var after := Run(env, pool, genesis, calls + [Call.Deposit(depositor, commitment, true)]).leaves;
      IncongruentLeaves(after) <==> inserted !! Encodings(commitment)
  {
    var leaves := Run(env, pool, genesis, calls).leaves;
    DepositsAfterIff(env, pool, genesis, calls, depositor, commitment);
    EncodingsIff(commitment, commitment);
    PushedLeafIff(leaves, commitment);
  }

  lemma PushedLeafIff(leaves: seq<Bytes32>, leaf: Bytes32)
    requires IncongruentLeaves(leaves)
    ensures IncongruentLeaves(leaves + [leaf]) <==> SetOf(leaves) !! Encodings(leaf)
  {
    var all, n := leaves + [leaf], |leaves|;
    forall i | 0 <= i < n
      ensures leaves[i] in SetOf(leaves)
      ensures leaves[i] in Encodings(leaf) <==> Field32(all[i]) == Field32(all[n])
    {
      EncodingsIff(leaf, leaves[i]);
    }
  }

  /**
   Commitment replay. After any run from deployment, a deposited commitment is accepted
   once more under another encoding as long as the tree has room and the depositor can
   pay; only if that encoding is a leaf already is it refused. Either way two leaves
   are congruent afterwards.
   */
  lemma CommitmentReplayed(
    env: Env, pool: Address, genesis: State, calls: seq<Call>, depositor: Address, commitment: Bytes32)
    returns (twin: Bytes32)
    requires Genesis(genesis) && depositor != pool
    requires Run(env, pool, genesis, calls).config.Some?
    requires commitment in Run(env, pool, genesis, calls).leaves
    requires var s := Run(env, pool, genesis, calls);
      && |s.leaves| < Capacity(s.config.value.depth)
      && Transfer(s.balances, depositor, pool, s.config.value.denomination).Some?
    ensures var s := Run(env, pool, genesis, calls);
      var s' := Run(env, pool, genesis, calls + [Call.Deposit(depositor, twin, true)]);
      && twin != commitment && Field32(twin) == Field32(commitment)
      && s'.leaves == (if twin in s.leaves then s.leaves else s.leaves + [twin])
      && !IncongruentLeaves(s'.leaves)
  {
    twin := AliasExists(commitment);
    var s, call := Run(env, pool, genesis, calls), Call.Deposit(depositor, twin, true);
    RunOneMore(env, pool, genesis, calls, call);
    StepAppends(env, pool, s, call);
    BothAreLeaves(Next(env, pool, s, call).leaves, commitment, twin);
  }

  lemma BothAreLeaves(leaves: seq<Bytes32>, a: Bytes32, b: Bytes32)
    requires a in leaves && b in leaves && a != b && Field32(a) == Field32(b)
    ensures !IncongruentLeaves(leaves)
  {
    var i :| 0 <= i < |leaves| && leaves[i] == a;
    var j :| 0 <= j < |leaves| && leaves[j] == b;
    assert i < j || j < i;
  }

  /**
   A note for one of two congruent leaves is a note for both, but it has one nullifier:
   once the client's withdrawal from either is accepted, its withdrawal from the other
   is refused as spent, in the same root window. The refusal is of those bytes only:
   while the withdrawal is payable, any other encoding of the nullifier hash that was
   not spent lets the second leaf go too.
   */
  lemma TwinsShareOneWithdrawal(
    env: Env, pool: Address, s: State, calls: seq<Call>, prove: Prover, i: nat, j: nat, note: Note,
    recipient: Address, relayer: Address, fee: i128, again: Bytes32)
    requires Configured(s) && Inv(env, s) && s.config.Some?
    requires Complete(env, s.config.value.depth, prove)
    requires i != j && Commits(env.h, s.leaves, i, note)
    requires j < |s.leaves| && Field32(s.leaves[j]) == Field32(s.leaves[i])
    requires |recipient| <= 56 && |relayer| <= 56 && fee >= 0
    requires |Deposited(env, pool, s, calls)| < s.config.value.historySize
    requires BytesToFr(again) == NullifierHash(env.h, note)
    ensures var (H, depth, s') := (BytesHasher(env.h), s.config.value.depth, Run(env, pool, s, calls));
      var (p, q) := (SpecProof(H, depth, s.leaves, i), SpecProof(H, depth, s.leaves, j));
      && Commits(env.h, s.leaves, j, note)
      && Binary(p.bits) && Binary(q.bits)
      && var one := Call.Withdraw(HonestSpend(env, prove, note, p, recipient, relayer, fee));
      var other := HonestSpend(env, prove, note, q, recipient, relayer, fee);
      ReplyTo(env, pool, s', one) == Ok ==>
        var s1 := Next(env, pool, s', one);
        && ReplyTo(env, pool, s1, Call.Withdraw(other)) == Err(NullifierSpent)
        && (Payable(env, pool, s1, other) ==>
              ReplyTo(env, pool, s1, Call.Withdraw(other.(nullifierHash := again)))
                == if again in SpentSet(s1.spends) then Err(NullifierSpent) else Ok)
  {
    var H, depth, s' := BytesHasher(env.h), s.config.value.depth, Run(env, pool, s, calls);
    HonestWithdrawalAccepted(env, pool, s, calls, prove, i, note, recipient, relayer, fee);
    var w := HonestSpend(env, prove, note, SpecProof(H, depth, s.leaves, i), recipient, relayer, fee);
    var one := Call.Withdraw(w);
    RunOneMore(env, pool, s, calls, one);
    RunAppends(env, pool, s, calls);
    RunAppends(env, pool, s, calls + [one]);
    StepAppends(env, pool, s', one);
    assert |Deposited(env, pool, s, calls + [one])| == |Deposited(env, pool, s, calls)|;
    HonestWithdrawalAccepted(env, pool, s, calls + [one], prove, j, note, recipient, relayer, fee);
    if ReplyTo(env, pool, s', one) == Ok {
      SpentSetPush(s'.spends, w);
      FrRoundTrip(NullifierHash(env.h, note));
      var other := HonestSpend(env, prove, note, SpecProof(H, depth, s.leaves, j), recipient, relayer, fee);
      CongruentReuse(env, pool, Next(env, pool, s', one), other, again);
    }
  }
}

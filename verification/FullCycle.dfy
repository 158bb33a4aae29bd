/**
 The life of a pool that works: initialized, filled, and emptied by the owners of its
 deposits in any order, every call accepted and every token accounted for.
 */
module FullCycle {
  import opened Acceptance
  import opened Codec
  import opened Field
  import opened InputCodec
  import opened Ledger
  import opened LedgerRuns
  import opened MerkleSpec
  import opened Numbers
  import opened PoolHistory
  import opened SingleWithdrawal
  import opened TreeHashes
  import opened Wrappers

  /** What the owner of deposit i wants done with it. */
  datatype Claim = Claim(i: nat, note: Note, recipient: Address, relayer: Address, fee: i128)

  /** The withdrawal that the client submits with the indexer's answer for these leaves. */
  function ClaimSpend(env: Env, prove: Prover, depth: nat, leaves: seq<Bytes32>, claim: Claim): Spend
    requires claim.fee >= 0
  {
    var proof := SpecProof(BytesHasher(env.h), depth, leaves, claim.i);
    assert Binary(proof.bits);
    HonestSpend(env, prove, claim.note, proof, claim.recipient, claim.relayer, claim.fee)
  }

  predicate FeesNonNegative(claims: seq<Claim>) {
    forall k :: 0 <= k < |claims| ==> claims[k].fee >= 0
  }

  function ClaimSpends(env: Env, prove: Prover, depth: nat, leaves: seq<Bytes32>, claims: seq<Claim>):
    (spends: seq<Spend>)
    requires FeesNonNegative(claims)
    ensures |spends| == |claims|
  {
    seq(|claims|, k requires 0 <= k < |claims| => ClaimSpend(env, prove, depth, leaves, claims[k]))
  }

  function Withdrawals(spends: seq<Spend>): (calls: seq<Call>)
    ensures |calls| == |spends|
  {
    seq(|spends|, k requires 0 <= k < |spends| => Call.Withdraw(spends[k]))
  }

  /** Tokens that the claims bring an account. */
  function Income(claims: seq<Claim>, denomination: i128, who: Address): int {
    if |claims| == 0 then 0
    else
      var claim := claims[|claims| - 1];
      Income(claims[..|claims| - 1], denomination, who)
        + Paid(who, claim.recipient, denomination - claim.fee) + Paid(who, claim.relayer, claim.fee)
  }

  /** Claim k is the owner's, within the pool's limits, and its payees can hold n denominations more. */
  predicate GoodClaim(env: Env, s: State, claim: Claim, n: nat)
    requires s.config.Some?
  {
    var c := s.config.value;
    && Commits(env.h, s.leaves, claim.i, claim.note)
    && |claim.recipient| <= 56 && |claim.relayer| <= 56
    && 0 <= claim.fee <= c.maxFee && claim.fee <= c.denomination
    && ToBytes32(NullifierHash(env.h, claim.note)) !in SpentSet(s.spends)
    && Balance(s.balances, claim.recipient) + c.denomination * n <= I128_MAX
    && Balance(s.balances, claim.relayer) + c.denomination * n <= I128_MAX
  }

  /** Good claims under different nullifier hashes, no more than there are unmatched deposits. */
  ghost predicate GoodClaims(env: Env, s: State, claims: seq<Claim>)
    requires s.config.Some?
  {
    && |s.spends| + |claims| <= |s.leaves|
    && (forall k :: 0 <= k < |claims| ==> GoodClaim(env, s, claims[k], |claims|))
    && (forall j, k :: 0 <= j < k < |claims| ==>
          NullifierHash(env.h, claims[j].note) != NullifierHash(env.h, claims[k].note))
  }

  /** The state after all claims were paid. */
  ghost predicate AllPaid(env: Env, pool: Address, prove: Prover, s: State, claims: seq<Claim>, s': State)
    requires s.config.Some? && FeesNonNegative(claims)
  {
    var c := s.config.value;
    && s'.config == s.config && s'.leaves == s.leaves
    && s'.spends == s.spends + ClaimSpends(env, prove, c.depth, s.leaves, claims)
    && (forall who :: Balance(s'.balances, who) == Balance(s.balances, who)
          + Income(claims, c.denomination, who) - Paid(who, pool, c.denomination * |claims|))
  }

  lemma {:induction false} IncomeBound(claims: seq<Claim>, denomination: i128, who: Address)
    requires forall k :: 0 <= k < |claims| ==> 0 <= claims[k].fee <= denomination
    ensures 0 <= Income(claims, denomination, who) <= denomination * |claims|
  {
    if |claims| > 0 {
      var n := |claims| - 1;
      IncomeBound(claims[..n], denomination, who);
      Times(denomination, n);
    }
  }

  lemma FewerGood(env: Env, s: State, claims: seq<Claim>, claim: Claim)
    requires Configured(s) && s.config.Some?
    requires GoodClaims(env, s, claims + [claim])
    ensures GoodClaims(env, s, claims) && FeesNonNegative(claims)
    ensures GoodClaim(env, s, claim, |claims| + 1)
    ensures forall k :: 0 <= k < |claims| ==>
      NullifierHash(env.h, claims[k].note) != NullifierHash(env.h, claim.note)
  {
    var all := claims + [claim];
    Times(s.config.value.denomination, |claims|);
    assert all[|claims|] == claim;
    forall k | 0 <= k < |claims|
      ensures GoodClaim(env, s, claims[k], |claims|)
      ensures NullifierHash(env.h, claims[k].note) != NullifierHash(env.h, claim.note)
    {
      assert all[k] == claims[k];
      assert GoodClaim(env, s, all[k], |all|);
    }
    forall j, k | 0 <= j < k < |claims|
      ensures NullifierHash(env.h, claims[j].note) != NullifierHash(env.h, claims[k].note)
    {
      assert all[j] == claims[j] && all[k] == claims[k];
    }
  }

  lemma PushClaim(env: Env, prove: Prover, depth: nat, leaves: seq<Bytes32>, claims: seq<Claim>, claim: Claim)
    requires FeesNonNegative(claims) && claim.fee >= 0
    ensures ClaimSpends(env, prove, depth, leaves, claims + [claim])
         == ClaimSpends(env, prove, depth, leaves, claims) + [ClaimSpend(env, prove, depth, leaves, claim)]
    ensures Withdrawals(ClaimSpends(env, prove, depth, leaves, claims + [claim]))
         == Withdrawals(ClaimSpends(env, prove, depth, leaves, claims))
            + [Call.Withdraw(ClaimSpend(env, prove, depth, leaves, claim))]
  {
    assert forall k :: 0 <= k < |claims| ==> (claims + [claim])[k] == claims[k];
  }

  /** The new claim's hash is none of those spent so far. */
  lemma HashUnspent(env: Env, prove: Prover, s: State, claims: seq<Claim>, claim: Claim)
    requires s.config.Some? && FeesNonNegative(claims)
    requires ToBytes32(NullifierHash(env.h, claim.note)) !in SpentSet(s.spends)
    requires forall k :: 0 <= k < |claims| ==> NullifierHash(env.h, claims[k].note) != NullifierHash(env.h, claim.note)
    ensures ToBytes32(NullifierHash(env.h, claim.note))
      !in SpentSet(s.spends + ClaimSpends(env, prove, s.config.value.depth, s.leaves, claims))
  {
    var paid := ClaimSpends(env, prove, s.config.value.depth, s.leaves, claims);
    FrRoundTrip(NullifierHash(env.h, claim.note));
    forall w | w in s.spends + paid
      ensures w.nullifierHash != ToBytes32(NullifierHash(env.h, claim.note))
    {
      if w in s.spends {
        assert w.nullifierHash in SpentSet(s.spends);
      } else {
        var k :| 0 <= k < |claims| && paid[k] == w;
        FrRoundTrip(NullifierHash(env.h, claims[k].note));
      }
    }
  }

  /** After the other claims the payees still can hold a denomination more. */
  lemma Headroom(env: Env, pool: Address, prove: Prover, s: State, claims: seq<Claim>, s': State, who: Address)
    requires Configured(s) && s.config.Some?
    requires GoodClaims(env, s, claims) && FeesNonNegative(claims)
    requires AllPaid(env, pool, prove, s, claims, s')
    requires Balance(s.balances, who) + s.config.value.denomination * (|claims| + 1) <= I128_MAX
    ensures Balance(s'.balances, who) + s.config.value.denomination <= I128_MAX
  {
    var d := s.config.value.denomination;
    forall k | 0 <= k < |claims|
      ensures 0 <= claims[k].fee <= d
    {
      assert GoodClaim(env, s, claims[k], |claims|);
    }
    IncomeBound(claims, d, who);
    Times(d, |claims|);
  }

  /** The next claim's withdrawal succeeds and pays. */
  lemma NextClaim(
    env: Env, pool: Address, genesis: State, before: seq<Call>, prove: Prover, claims: seq<Claim>, claim: Claim)
    requires Genesis(genesis) && Run(env, pool, genesis, before).config.Some?
    requires Complete(env, Run(env, pool, genesis, before).config.value.depth, prove)
    requires GoodClaims(env, Run(env, pool, genesis, before), claims + [claim])
    requires FeesNonNegative(claims) && claim.fee >= 0
    requires var s := Run(env, pool, genesis, before);
      AllPaid(env, pool, prove, s, claims,
        Run(env, pool, s, Withdrawals(ClaimSpends(env, prove, s.config.value.depth, s.leaves, claims))))
    ensures var s := Run(env, pool, genesis, before);
      var s1 := Run(env, pool, s, Withdrawals(ClaimSpends(env, prove, s.config.value.depth, s.leaves, claims)));
      var w := ClaimSpend(env, prove, s.config.value.depth, s.leaves, claim);
      && ReplyTo(env, pool, s1, Call.Withdraw(w)) == Ok
      && PaidOut(s1.balances, Next(env, pool, s1, Call.Withdraw(w)).balances, pool,
           claim.recipient, claim.relayer, s.config.value.denomination, claim.fee)
  {
    var s := Run(env, pool, genesis, before);
    var calls := Withdrawals(ClaimSpends(env, prove, s.config.value.depth, s.leaves, claims));
    var s1 := Run(env, pool, s, calls);
    FewerGood(env, s, claims, claim);
    RunAppends(env, pool, s, calls);
    assert |s1.leaves| == |s.leaves| + |Deposited(env, pool, s, calls)|;
    Headroom(env, pool, prove, s, claims, s1, claim.recipient);
    Headroom(env, pool, prove, s, claims, s1, claim.relayer);
    HashUnspent(env, prove, s, claims, claim);
    HonestWithdrawalPaid(env, pool, genesis, before, calls, prove,
      claim.i, claim.note, claim.recipient, claim.relayer, claim.fee);
  }

  lemma PushPaid(env: Env, pool: Address, prove: Prover, s: State, claims: seq<Claim>, claim: Claim, s1: State)
    requires Configured(s) && s.config.Some? && Configured(s1)
    requires FeesNonNegative(claims) && claim.fee >= 0
    requires AllPaid(env, pool, prove, s, claims, s1)
    requires var w := ClaimSpend(env, prove, s.config.value.depth, s.leaves, claim);
      && ReplyTo(env, pool, s1, Call.Withdraw(w)) == Ok
      && PaidOut(s1.balances, Next(env, pool, s1, Call.Withdraw(w)).balances, pool,
           claim.recipient, claim.relayer, s.config.value.denomination, claim.fee)
    ensures var w := ClaimSpend(env, prove, s.config.value.depth, s.leaves, claim);
      AllPaid(env, pool, prove, s, claims + [claim], Next(env, pool, s1, Call.Withdraw(w)))
  {
    var c, all := s.config.value, claims + [claim];
    var w := ClaimSpend(env, prove, c.depth, s.leaves, claim);
    PushClaim(env, prove, c.depth, s.leaves, claims, claim);
    StepAppends(env, pool, s1, Call.Withdraw(w));
    Times(c.denomination, |claims|);
    assert all[..|claims|] == claims;
  }

  /**
   Everyone is paid. In every reachable pool, the owners of any unmatched deposits withdraw
   one after the other, in any order and to any payees, with answers of the indexer that
   are all taken beforehand: every call is accepted, each payee gets its shares, and the
   pool gives exactly one denomination each time.
   */
  lemma {:induction false} EveryoneIsPaid(
    env: Env, pool: Address, genesis: State, before: seq<Call>, prove: Prover, claims: seq<Claim>)
    requires Genesis(genesis) && Run(env, pool, genesis, before).config.Some?
    requires Complete(env, Run(env, pool, genesis, before).config.value.depth, prove)
    requires GoodClaims(env, Run(env, pool, genesis, before), claims)
    ensures FeesNonNegative(claims)
    ensures var s := Run(env, pool, genesis, before);
      AllPaid(env, pool, prove, s, claims,
        Run(env, pool, s, Withdrawals(ClaimSpends(env, prove, s.config.value.depth, s.leaves, claims))))
    decreases |claims|
  {
    var s := Run(env, pool, genesis, before);
    if |claims| == 0 {
      assert s.spends + [] == s.spends;
    } else {
      var n := |claims| - 1;
      var front, claim, depth := claims[..n], claims[n], s.config.value.depth;
      assert claims == front + [claim];
      FewerGood(env, s, front, claim);
      EveryoneIsPaid(env, pool, genesis, before, prove, front);
      NextClaim(env, pool, genesis, before, prove, front, claim);
      PushClaim(env, prove, depth, s.leaves, front, claim);
      var calls, w := Withdrawals(ClaimSpends(env, prove, depth, s.leaves, front)),
        ClaimSpend(env, prove, depth, s.leaves, claim);
      RunOneMore(env, pool, s, calls, Call.Withdraw(w));
      PushPaid(env, pool, prove, s, front, claim, Run(env, pool, s, calls));
    }
  }

  lemma {:induction false} NoIncome(claims: seq<Claim>, denomination: i128, who: Address)
    requires forall k :: 0 <= k < |claims| ==> claims[k].recipient != who && claims[k].relayer != who
    ensures Income(claims, denomination, who) == 0
  {
    if |claims| > 0 {
      NoIncome(claims[..|claims| - 1], denomination, who);
    }
  }

  /** A fresh pool after acceptable deposits. */
  lemma Filled(env: Env, pool: Address, genesis: State, c: Config, orders: seq<Order>)
    requires Genesis(genesis) && Initializes(Call.Initialize(c, true))
    requires Acceptable(pool, State(Some(c), [], [], genesis.balances), orders)
    ensures var s := Run(env, pool, genesis, [Call.Initialize(c, true)] + DepositCalls(orders));
      && s.config == Some(c) && s.leaves == Commitments(orders) && s.spends == []
      && Balance(s.balances, pool) == Balance(genesis.balances, pool) + c.denomination * |orders|
  {
    Initialization(env, pool, genesis, c);
    RunConcat(env, pool, genesis, [Call.Initialize(c, true)], DepositCalls(orders));
    DepositsAcceptedIff(env, pool, State(Some(c), [], [], genesis.balances), orders);
    assert [] + Commitments(orders) == Commitments(orders);
    NoOrders(orders, pool);
  }

  /** A pool without withdrawals after a claim for each deposit. */
  lemma Emptied(
    env: Env, pool: Address, genesis: State, before: seq<Call>, prove: Prover, claims: seq<Claim>)
    requires Genesis(genesis) && Run(env, pool, genesis, before).config.Some?
    requires Complete(env, Run(env, pool, genesis, before).config.value.depth, prove)
    requires GoodClaims(env, Run(env, pool, genesis, before), claims)
    requires Run(env, pool, genesis, before).spends == []
    requires forall k :: 0 <= k < |claims| ==> claims[k].recipient != pool && claims[k].relayer != pool
    ensures FeesNonNegative(claims)
    ensures var s := Run(env, pool, genesis, before);
      var spends := ClaimSpends(env, prove, s.config.value.depth, s.leaves, claims);
      var s' := Run(env, pool, genesis, before + Withdrawals(spends));
      && s'.leaves == s.leaves && s'.spends == spends
      && Balance(s'.balances, pool) == Balance(s.balances, pool) - s.config.value.denomination * |claims|
  {
    var s := Run(env, pool, genesis, before);
    EveryoneIsPaid(env, pool, genesis, before, prove, claims);
    var spends := ClaimSpends(env, prove, s.config.value.depth, s.leaves, claims);
    RunConcat(env, pool, genesis, before, Withdrawals(spends));
    assert [] + spends == spends;
    NoIncome(claims, s.config.value.denomination, pool);
  }

  /**
   From deployment: a pool initialized with valid arguments and filled with acceptable
   deposits is emptied by their owners. In the end there is one accepted withdrawal per
   deposit, and the pool holds what it held before.
   */
  lemma FillAndEmpty(
    env: Env, pool: Address, genesis: State, c: Config, orders: seq<Order>, prove: Prover, claims: seq<Claim>)
    requires Genesis(genesis) && Initializes(Call.Initialize(c, true))
    requires Complete(env, c.depth, prove)
    requires Acceptable(pool, State(Some(c), [], [], genesis.balances), orders)
    requires var s := Run(env, pool, genesis, [Call.Initialize(c, true)] + DepositCalls(orders));
      s.config == Some(c) && GoodClaims(env, s, claims)
    requires |claims| == |orders|
    requires forall k :: 0 <= k < |claims| ==> claims[k].recipient != pool && claims[k].relayer != pool
    ensures FeesNonNegative(claims)
    ensures var spends := ClaimSpends(env, prove, c.depth, Commitments(orders), claims);
      var s := Run(env, pool, genesis,
        ([Call.Initialize(c, true)] + DepositCalls(orders)) + Withdrawals(spends));
      && s.leaves == Commitments(orders) && s.spends == spends
      && Balance(s.balances, pool) == Balance(genesis.balances, pool)
  {
    Filled(env, pool, genesis, c, orders);
    Emptied(env, pool, genesis, [Call.Initialize(c, true)] + DepositCalls(orders), prove, claims);
  }
}

/**
 Whether a deposit can be withdrawn twice. The pool remembers nullifier hashes as
 bytes while the verifier sees residues mod p. This module states the exact
 condition under which no deposit leaves twice, what the pool holds in every case,
 and the run in which one does.
 */
module SingleWithdrawal {
  import opened Backing
  import opened Codec
  import opened Counting
  import opened Field
  import opened InputCodec
  import opened Ledger
  import opened LedgerRuns
  import opened MerkleBinding
  import opened Numbers

  // ------------------------------------------------------- the exact condition

  /** The accepted nullifier hashes are pairwise different mod p. */
  ghost predicate Incongruent(spends: seq<Spend>) {
    forall i, j :: 0 <= i < j < |spends| ==>
      BytesToFr(spends[i].nullifierHash) != BytesToFr(spends[j].nullifierHash)
  }

  /** No deposit is opened by two accepted withdrawals. */
  ghost predicate OncePerDeposit(a: Audit, spends: seq<Spend>) {
    forall i, j :: 0 <= i < j < |spends| ==> a.LeafIndex(spends[i]) != a.LeafIndex(spends[j])
  }

  /** The witnesses of different opened deposits have different nullifiers. */
  ghost predicate OwnNullifiers(a: Audit, spends: seq<Spend>) {
    forall i, j :: 0 <= i < j < |spends| && a.LeafIndex(spends[i]) != a.LeafIndex(spends[j]) ==>
      a.WitnessOf(spends[i]).nullifier != a.WitnessOf(spends[j]).nullifier
  }

  /**
   Pairwise incongruent hashes mean that no deposit was withdrawn twice and no two
   withdrawn deposits share a nullifier; the converse holds too, or two different
   nullifiers with one hash are exhibited.
   */
  lemma IncongruentIff(a: Audit, spends: seq<Spend>)
    requires EachBacked(a, spends) && AllSeparate(a, spends)
    ensures Incongruent(spends) ==> OncePerDeposit(a, spends) && OwnNullifiers(a, spends)
    ensures match a.NullifierSearch(spends)
      case Some(x) => Collides(a.env.h, x)
      case None => Incongruent(spends) <==> OncePerDeposit(a, spends) && OwnNullifiers(a, spends)
  {
    NullifierSearchSound(a, spends);
    forall i, j | 0 <= i < j < |spends| && a.Nullifier(spends[i]) != a.Nullifier(spends[j])
      ensures a.LeafIndex(spends[i]) != a.LeafIndex(spends[j])
      ensures a.WitnessOf(spends[i]).nullifier != a.WitnessOf(spends[j]).nullifier
    {
      assert Separate(a, spends[i], spends[j]);
      assert a.Backed(spends[i]) && a.Backed(spends[j]);
    }
  }

  /** No accepted nullifier hash is congruent to this one: the guard a call would need. */
  ghost predicate ResidueFresh(spends: seq<Spend>, nullifierHash: Bytes32) {
    forall i :: 0 <= i < |spends| ==> BytesToFr(spends[i].nullifierHash) != BytesToFr(nullifierHash)
  }

  /** In terms of the stored keys: none of the hash's encodings was spent. */
  lemma ResidueFreshIff(spends: seq<Spend>, nullifierHash: Bytes32)
    ensures ResidueFresh(spends, nullifierHash) <==> SpentSet(spends) !! Encodings(nullifierHash)
  {
    forall b: Bytes32
      ensures b in Encodings(nullifierHash) <==> BytesToFr(b) == BytesToFr(nullifierHash)
    {
      EncodingsIff(nullifierHash, b);
    }
    forall i | 0 <= i < |spends|
      ensures spends[i].nullifierHash in SpentSet(spends)
    {
    }
  }

  /**
   Per withdrawal, whatever its proof, root, payees and fee: a fresh residue repeats
   no deposit, and where deposits do not share nullifiers only a fresh residue does
   not, or two different nullifiers with one hash are exhibited.
   */
  lemma OneMoreWithdrawalIff(a: Audit, spends: seq<Spend>, w: Spend)
    requires EachBacked(a, spends + [w]) && AllSeparate(a, spends + [w])
    requires OncePerDeposit(a, spends)
    ensures ResidueFresh(spends, w.nullifierHash) ==> OncePerDeposit(a, spends + [w])
    ensures match a.NullifierSearch(spends + [w])
      case Some(x) => Collides(a.env.h, x)
      case None => OwnNullifiers(a, spends + [w]) ==>
        (OncePerDeposit(a, spends + [w]) <==> ResidueFresh(spends, w.nullifierHash))
  {
    var all, n := spends + [w], |spends|;
    NullifierSearchSound(a, all);
    forall i | 0 <= i < n
      ensures BytesToFr(spends[i].nullifierHash) != BytesToFr(w.nullifierHash) ==>
        a.LeafIndex(all[i]) != a.LeafIndex(all[n])
      ensures a.NullifierSearch(all).None? && OwnNullifiers(a, all) && a.LeafIndex(all[i]) != a.LeafIndex(all[n]) ==>
        BytesToFr(spends[i].nullifierHash) != BytesToFr(w.nullifierHash)
    {
      assert Separate(a, all[i], all[n]);
      assert a.Nullifier(all[i]) == BytesToFr(spends[i].nullifierHash);
      assert a.Nullifier(all[n]) == BytesToFr(w.nullifierHash);
    }
  }

  /** Canonical encodings satisfy the condition, because the pool compares bytes. */
  lemma CanonicalIsIncongruent(spends: seq<Spend>)
    requires DistinctSpends(spends)
    requires forall i :: 0 <= i < |spends| ==> Canonical(spends[i].nullifierHash)
    ensures Incongruent(spends)
  {
    forall i, j | 0 <= i < j < |spends|
      ensures BytesToFr(spends[i].nullifierHash) != BytesToFr(spends[j].nullifierHash)
    {
      CanonicalInjective(spends[i].nullifierHash, spends[j].nullifierHash);
    }
  }

  /**
   Over every run, with a sound verifier and no coincidence exhibited: incongruent
   accepted hashes mean that no deposit was withdrawn twice, and where deposits do not
   share nullifiers that is the exact condition of the documented promise, unless two
   different nullifiers with one hash are exhibited.
   */
  lemma WithdrawnOnceIff(env: Env, pool: Address, s: State, calls: seq<Call>, extract: Extractor)
    requires IsPrime(P) && Genesis(s)
    requires Run(env, pool, s, calls).config.Some?
    requires KnowledgeSound(env, Run(env, pool, s, calls).config.value.depth, extract)
    ensures var spends := Run(env, pool, s, calls).spends;
      var a := AuditOf(env, Run(env, pool, s, calls), extract);
      match a.Search(spends)
      case Some(x) => Genuine(a.Hash(), x)
      case None =>
        && (Incongruent(spends) ==> OncePerDeposit(a, spends) && OwnNullifiers(a, spends))
        && match a.NullifierSearch(spends)
           case Some(x) => Collides(env.h, x)
           case None => OwnNullifiers(a, spends) ==> (OncePerDeposit(a, spends) <==> Incongruent(spends))
  {
    var s' := Run(env, pool, s, calls);
    var a := AuditOf(env, s', extract);
    WithdrawalsAreBacked(env, pool, s, calls, extract);
    if a.Search(s'.spends).None? {
      IncongruentIff(a, s'.spends);
    }
  }

  /** After these calls the pool accepts the withdrawal: one more call logs it. */
  ghost predicate AcceptsAfter(env: Env, pool: Address, genesis: State, calls: seq<Call>, w: Spend)
    requires Configured(genesis)
  {
    Run(env, pool, genesis, calls + [Call.Withdraw(w)]).spends == Run(env, pool, genesis, calls).spends + [w]
  }

  lemma AcceptsAfterIff(env: Env, pool: Address, genesis: State, calls: seq<Call>, w: Spend)
    requires Configured(genesis)
    ensures AcceptsAfter(env, pool, genesis, calls, w) <==>
      ReplyTo(env, pool, Run(env, pool, genesis, calls), Call.Withdraw(w)) == Ok
  {
    RunOneMore(env, pool, genesis, calls, Call.Withdraw(w));
    StepAppends(env, pool, Run(env, pool, genesis, calls), Call.Withdraw(w));
  }

  /**
   The same per call, in any reachable state: an accepted withdrawal keeps every deposit
   to one withdrawal exactly when no accepted hash has its residue. The pool itself only
   asks that no accepted hash has its bytes.
   */
  lemma AcceptedOnceIff(env: Env, pool: Address, genesis: State, calls: seq<Call>, w: Spend, extract: Extractor)
    requires IsPrime(P) && Genesis(genesis)
    requires Run(env, pool, genesis, calls).config.Some?
    requires KnowledgeSound(env, Run(env, pool, genesis, calls).config.value.depth, extract)
    requires AcceptsAfter(env, pool, genesis, calls, w)
    ensures var s := Run(env, pool, genesis, calls);
      var (a, all) := (AuditOf(env, s, extract), s.spends + [w]);
      match a.Search(all)
      case Some(x) => Genuine(a.Hash(), x)
      case None =>
        OncePerDeposit(a, s.spends) ==>
          && (ResidueFresh(s.spends, w.nullifierHash) ==> OncePerDeposit(a, all))
          && match a.NullifierSearch(all)
             case Some(x) => Collides(env.h, x)
             case None => OwnNullifiers(a, all) ==>
               (OncePerDeposit(a, all) <==> ResidueFresh(s.spends, w.nullifierHash))
  {
    var s := Run(env, pool, genesis, calls);
    var a, all := AuditOf(env, s, extract), s.spends + [w];
    RunOneMore(env, pool, genesis, calls, Call.Withdraw(w));
    StepAppends(env, pool, s, Call.Withdraw(w));
    WithdrawalsAreBacked(env, pool, genesis, calls + [Call.Withdraw(w)], extract);
    if a.Search(all).None? && OncePerDeposit(a, s.spends) {
      OneMoreWithdrawalIff(a, s.spends, w);
    }
  }

  lemma RunOneMore(env: Env, pool: Address, s: State, calls: seq<Call>, x: Call)
    requires Configured(s)
    ensures Run(env, pool, s, calls + [x]) == Next(env, pool, Run(env, pool, s, calls), x)
  {
    RunConcat(env, pool, s, calls, [x]);
  }

  // ------------------------------------------------------ the exact accounting

  /** Indices of the deposits that no accepted withdrawal opens. */
  function Unspent(a: Audit, spends: seq<Spend>): set<nat> {
    Below(|a.leaves|) - SetOf(a.LeafIndices(spends))
  }

  /** Withdrawals of a deposit beyond its first, over all deposits. */
  function Repeats(a: Audit, spends: seq<Spend>): int {
    |spends| - |SetOf(a.LeafIndices(spends))|
  }

  /** Nothing is withdrawn repeatedly exactly when every deposit is withdrawn at most once. */
  lemma NoRepeatsIff(a: Audit, spends: seq<Spend>)
    ensures Repeats(a, spends) >= 0
    ensures Repeats(a, spends) == 0 <==> OncePerDeposit(a, spends)
  {
    var indices := a.LeafIndices(spends);
    DistinctCount(indices);
    forall i, j | 0 <= i < j < |spends|
      ensures indices[i] != indices[j] <==> a.LeafIndex(spends[i]) != a.LeafIndex(spends[j])
    {
    }
  }

  /** Deposits exceed withdrawals by the unspent deposits less the repeated withdrawals. */
  lemma UnspentCount(a: Audit, spends: seq<Spend>)
    requires EachBacked(a, spends) && AllSeparate(a, spends)
    ensures |Unspent(a, spends)| - Repeats(a, spends) == |a.leaves| - |spends|
  {
    BackedCounts(a, spends);
    SubsetCount(SetOf(a.LeafIndices(spends)), Below(|a.leaves|));
  }

  lemma Rebalance(u: int, x: int, y: int, z: int)
    requires x == y - z
    ensures u * x == u * y - u * z
  {
  }

  /**
   Exact accounting of every run, without any condition on the encodings: the balance
   is what the pool started with and received outside deposits, plus a denomination
   per unspent deposit, less one for each repeated withdrawal.
   */
  lemma RunAccounted(env: Env, pool: Address, s: State, calls: seq<Call>, extract: Extractor)
    requires IsPrime(P) && Genesis(s)
    requires Run(env, pool, s, calls).config.Some?
    requires KnowledgeSound(env, Run(env, pool, s, calls).config.value.depth, extract)
    ensures var s' := Run(env, pool, s, calls);
      var a := AuditOf(env, s', extract);
      match a.Search(s'.spends)
      case Some(x) => Genuine(a.Hash(), x)
      case None =>
        Balance(s'.balances, pool)
          == Balance(s.balances, pool) + TotalReceived(env, pool, s, calls)
             + Unit(s') * |Unspent(a, s'.spends)| - Unit(s') * Repeats(a, s'.spends)
  {
    var s' := Run(env, pool, s, calls);
    var a := AuditOf(env, s', extract);
    WithdrawalsAreBacked(env, pool, s, calls, extract);
    RunConserves(env, pool, s, calls);
    if a.Search(s'.spends).None? {
      UnspentCount(a, s'.spends);
      Rebalance(Unit(s'), Outstanding(s'), |Unspent(a, s'.spends)|, Repeats(a, s'.spends));
    }
  }

  lemma ScaledSign(u: int, r: int)
    requires u > 0 && r >= 0
    ensures u * r >= 0 && (u * r == 0 <==> r == 0)
  {
  }

  /**
   Full backing. A run in which no deposit is withdrawn twice, in particular one with
   incongruent nullifier hashes, leaves a denomination for every unspent deposit; and a
   pool that started empty and was paid only by deposits has that much exactly then.
   */
  lemma UnspentDepositsAreFunded(env: Env, pool: Address, s: State, calls: seq<Call>, extract: Extractor)
    requires IsPrime(P) && Genesis(s)
    requires Run(env, pool, s, calls).config.Some?
    requires KnowledgeSound(env, Run(env, pool, s, calls).config.value.depth, extract)
    ensures var s' := Run(env, pool, s, calls);
      var a := AuditOf(env, s', extract);
      match a.Search(s'.spends)
      case Some(x) => Genuine(a.Hash(), x)
      case None =>
        var funded := Balance(s'.balances, pool) >= Unit(s') * |Unspent(a, s'.spends)|;
        && (Incongruent(s'.spends) ==> OncePerDeposit(a, s'.spends))
        && (OncePerDeposit(a, s'.spends) ==> funded)
        && (Balance(s.balances, pool) == 0 && (forall i :: 0 <= i < |calls| ==> Quiet(pool, calls[i])) ==>
              (funded <==> OncePerDeposit(a, s'.spends)))
  {
    var s' := Run(env, pool, s, calls);
    var a := AuditOf(env, s', extract);
    RunAccounted(env, pool, s, calls, extract);
    RunConserves(env, pool, s, calls);
    WithdrawnOnceIff(env, pool, s, calls, extract);
    WithdrawalsAreBacked(env, pool, s, calls, extract);
    if a.Search(s'.spends).None? {
      NoRepeatsIff(a, s'.spends);
      ScaledSign(Unit(s'), Repeats(a, s'.spends));
      if forall i :: 0 <= i < |calls| ==> Quiet(pool, calls[i]) {
        QuietReceivesNothing(env, pool, s, calls);
      }
    }
  }

  // ------------------------------------------------------- the worst case

  /** Accepted nullifier hashes of the withdrawals that open one of these leaves. */
  function HashesOf(a: Audit, spends: seq<Spend>, leaves: set<nat>): set<Bytes32> {
    set s | s in spends && a.LeafIndex(s) in leaves :: s.nullifierHash
  }

  lemma SameLeafResidue(a: Audit, spends: seq<Spend>, i: nat, b: Bytes32)
    requires AllSeparate(a, spends) && i < |spends|
    requires b in HashesOf(a, spends, {a.LeafIndex(spends[i])})
    ensures BytesToFr(b) == a.Nullifier(spends[i])
  {
    var t :| t in spends && a.LeafIndex(t) == a.LeafIndex(spends[i]) && t.nullifierHash == b;
    var j :| 0 <= j < |spends| && spends[j] == t;
    if i < j {
      assert Separate(a, spends[i], spends[j]);
    } else if j < i {
      assert Separate(a, spends[j], spends[i]);
    }
  }

  /** Whatever is withdrawn from one deposit goes by one of six encodings. */
  lemma AtMostSixOfOne(a: Audit, spends: seq<Spend>, leaf: nat)
    requires AllSeparate(a, spends)
    ensures |HashesOf(a, spends, {leaf})| <= 6
  {
    var hashes := HashesOf(a, spends, {leaf});
    if i :| 0 <= i < |spends| && a.LeafIndex(spends[i]) == leaf {
      forall b | b in hashes
        ensures b in Encodings(spends[i].nullifierHash)
      {
        SameLeafResidue(a, spends, i, b);
        EncodingsIff(spends[i].nullifierHash, b);
      }
      SubsetCount(hashes, Encodings(spends[i].nullifierHash));
    } else {
      assert hashes == {};
    }
  }

  lemma HashesSplit(a: Audit, spends: seq<Spend>, leaves: set<nat>, leaf: nat)
    requires leaf in leaves
    ensures HashesOf(a, spends, leaves) == HashesOf(a, spends, leaves - {leaf}) + HashesOf(a, spends, {leaf})
  {
  }

  lemma {:induction false} AtMostSixEach(a: Audit, spends: seq<Spend>, leaves: set<nat>)
    requires AllSeparate(a, spends)
    ensures |HashesOf(a, spends, leaves)| <= 6 * |leaves|
    decreases leaves
  {
    if leaves == {} {
      assert HashesOf(a, spends, leaves) == {};
    } else {
      var leaf :| leaf in leaves;
      var rest := leaves - {leaf};
      AtMostSixEach(a, spends, rest);
      AtMostSixOfOne(a, spends, leaf);
      HashesSplit(a, spends, leaves, leaf);
      UnionCount(HashesOf(a, spends, rest), HashesOf(a, spends, {leaf}));
      assert |leaves| == |rest| + 1;
    }
  }

  /** There are at most six withdrawals per opened deposit. */
  lemma RepeatsBound(a: Audit, spends: seq<Spend>)
    requires AllSeparate(a, spends) && DistinctSpends(spends)
    ensures Repeats(a, spends) <= 5 * |SetOf(a.LeafIndices(spends))|
  {
    var leaves := SetOf(a.LeafIndices(spends));
    AtMostSixEach(a, spends, leaves);
    forall i | 0 <= i < |spends|
      ensures a.LeafIndex(spends[i]) in leaves
    {
      assert a.LeafIndices(spends)[i] == a.LeafIndex(spends[i]);
    }
    assert HashesOf(a, spends, leaves) == SpentSet(spends);
    SpentCount(spends);
  }

  /**
   Worst case of every run, without any condition on the encodings: no deposit is
   withdrawn more than six times, so the balance falls short of the unspent deposits
   by at most five denominations per opened one.
   */
  lemma ShortfallIsBounded(env: Env, pool: Address, s: State, calls: seq<Call>, extract: Extractor)
    requires IsPrime(P) && Genesis(s)
    requires Run(env, pool, s, calls).config.Some?
    requires KnowledgeSound(env, Run(env, pool, s, calls).config.value.depth, extract)
    ensures var s' := Run(env, pool, s, calls);
      var a := AuditOf(env, s', extract);
      match a.Search(s'.spends)
      case Some(x) => Genuine(a.Hash(), x)
      case None =>
        && (forall leaf: nat :: |HashesOf(a, s'.spends, {leaf})| <= 6)
        && Balance(s'.balances, pool)
           >= Unit(s') * |Unspent(a, s'.spends)| - Unit(s') * (5 * |SetOf(a.LeafIndices(s'.spends))|)
  {
    var s' := Run(env, pool, s, calls);
    var a := AuditOf(env, s', extract);
    RunAccounted(env, pool, s, calls, extract);
    RunConserves(env, pool, s, calls);
    RunKeepsInv(env, pool, s, calls);
    WithdrawalsAreBacked(env, pool, s, calls, extract);
    if a.Search(s'.spends).None? {
      forall leaf: nat
        ensures |HashesOf(a, s'.spends, {leaf})| <= 6
      {
        AtMostSixOfOne(a, s'.spends, leaf);
      }
      RepeatsBound(a, s'.spends);
      ScaledOrder(Unit(s'), Repeats(a, s'.spends), 5 * |SetOf(a.LeafIndices(s'.spends))|);
    }
  }

  lemma ScaledOrder(u: int, x: int, y: int)
    requires u > 0 && x <= y
    ensures u * x <= u * y
  {
  }

  // ------------------------------------------- what the pool checks instead

  /** What a withdrawal asks of a state besides a fresh nullifier. */
  predicate Payable(env: Env, pool: Address, s: State, w: Spend)
    requires Configured(s)
  {
    && s.config.Some?
    && KnownRoot(env, s.config.value, s.leaves, w.root)
    && 0 <= w.fee <= s.config.value.maxFee
    && env.verify(w.proof, SpendInputs(env, w))
    && Payout(s.balances, pool, w.recipient, w.relayer, s.config.value.denomination, w.fee).Some?
  }

  lemma OkIffPayable(env: Env, pool: Address, s: State, w: Spend)
    requires Configured(s)
    ensures WithdrawReply(env, pool, s, w) == Ok <==>
      Payable(env, pool, s, w) && w.nullifierHash !in SpentSet(s.spends)
    ensures Payable(env, pool, s, w) && w.nullifierHash in SpentSet(s.spends) ==>
      WithdrawReply(env, pool, s, w) == Err(NullifierSpent)
  {
  }

  /**
   A withdrawal, with any proof and any payees, can be submitted under every encoding
   of its nullifier hash: all are payable together, and an encoding is refused as
   spent exactly when those very bytes were accepted before.
   */
  lemma CongruentReuse(env: Env, pool: Address, s: State, w: Spend, again: Bytes32)
    requires Configured(s)
    requires BytesToFr(again) == BytesToFr(w.nullifierHash)
    ensures var w' := w.(nullifierHash := again);
      && SpendInputs(env, w') == SpendInputs(env, w)
      && (Payable(env, pool, s, w') <==> Payable(env, pool, s, w))
      && (Payable(env, pool, s, w) ==>
            ReplyTo(env, pool, s, Call.Withdraw(w')) == if again in SpentSet(s.spends) then Err(NullifierSpent) else Ok)
  {
    var w' := w.(nullifierHash := again);
    assert SpendInputs(env, w') == SpendInputs(env, w);
    OkIffPayable(env, pool, s, w');
  }

  // -------------------------------------------- the run that withdraws twice

  /** Funds and headroom for one withdrawal more than the one just accepted. */
  predicate RoomForTwo(s: State, w: Spend)
    requires s.config.Some?
  {
    && |s.spends| + 1 < |s.leaves|
    && Balance(s.balances, w.recipient) + 2 * s.config.value.denomination <= I128_MAX
    && Balance(s.balances, w.relayer) + 2 * s.config.value.denomination <= I128_MAX
  }

  /** After a withdrawal with room for two, the same withdrawal can be paid once more. */
  lemma PayableAgain(env: Env, pool: Address, s: State, w: Spend)
    requires Configured(s) && s.config.Some? && RoomForTwo(s, w)
    requires Balance(s.balances, pool) >= Unit(s) * Outstanding(s)
    requires ReplyTo(env, pool, s, Call.Withdraw(w)) == Ok
    ensures Payable(env, pool, Next(env, pool, s, Call.Withdraw(w)), w)
  {
    var c, s1 := s.config.value, Next(env, pool, s, Call.Withdraw(w));
    OkIffPayable(env, pool, s, w);
    PayoutMoves(s.balances, pool, w.recipient, w.relayer, c.denomination, w.fee, pool);
    PayoutMoves(s.balances, pool, w.recipient, w.relayer, c.denomination, w.fee, w.recipient);
    PayoutMoves(s.balances, pool, w.recipient, w.relayer, c.denomination, w.fee, w.relayer);
    TwiceCovered(c.denomination, Outstanding(s));
    PayoutSucceeds(s1.balances, pool, w.recipient, w.relayer, c.denomination, w.fee);
  }

  lemma TwiceCovered(u: int, k: int)
    requires u > 0 && k >= 2
    ensures u * k >= 2 * u
  {
  }

  /** Two calls after a run, one after the other. */
  lemma RunTwoMore(env: Env, pool: Address, s: State, calls: seq<Call>, x: Call, y: Call)
    requires Configured(s)
    ensures Run(env, pool, s, calls + [x, y])
         == Next(env, pool, Next(env, pool, Run(env, pool, s, calls), x), y)
  {
    assert calls + [x, y] == (calls + [x]) + [y];
    RunOneMore(env, pool, s, calls, x);
    RunOneMore(env, pool, s, calls + [x], y);
  }

  /**
   The run. Whatever a pool did since its deployment, if it accepts a withdrawal while
   a second denomination is outstanding, then it accepts the withdrawal again under
   another encoding of its hash: the log ends with two withdrawals of one deposit. Only
   if that encoding was accepted even earlier is it refused, and then the log was not
   incongruent either.
   */
  lemma DepositWithdrawnTwice(
    env: Env, pool: Address, genesis: State, calls: seq<Call>, w: Spend, extract: Extractor) returns (again: Bytes32)
    requires Genesis(genesis)
    requires Run(env, pool, genesis, calls).config.Some?
    requires AcceptsAfter(env, pool, genesis, calls, w)
    requires RoomForTwo(Run(env, pool, genesis, calls), w)
    ensures var (s, w') := (Run(env, pool, genesis, calls), w.(nullifierHash := again));
      var s2 := Run(env, pool, genesis, calls + [Call.Withdraw(w), Call.Withdraw(w')]);
      && again != w.nullifierHash && BytesToFr(again) == BytesToFr(w.nullifierHash)
      && s2.config == s.config && s2.leaves == s.leaves
      && (again !in SpentSet(s.spends) ==>
            && s2.spends == s.spends + [w, w']
            && AuditOf(env, s2, extract).LeafIndex(w) == AuditOf(env, s2, extract).LeafIndex(w')
            && !OncePerDeposit(AuditOf(env, s2, extract), s2.spends))
      && !Incongruent(s2.spends)
  {
    again := AliasExists(w.nullifierHash);
    var s, w' := Run(env, pool, genesis, calls), w.(nullifierHash := again);
    var s1 := Next(env, pool, s, Call.Withdraw(w));
    var s2 := Next(env, pool, s1, Call.Withdraw(w'));
    AcceptsAfterIff(env, pool, genesis, calls, w);
    Solvency(env, pool, genesis, calls);
    PayableAgain(env, pool, s, w);
    CongruentReuse(env, pool, s1, w, again);
    StepAppends(env, pool, s, Call.Withdraw(w));
    StepAppends(env, pool, s1, Call.Withdraw(w'));
    RunTwoMore(env, pool, genesis, calls, Call.Withdraw(w), Call.Withdraw(w'));
    SpentSetPush(s.spends, w);
    if again in SpentSet(s.spends) {
      assert s2 == s1;
      AliasInLog(s.spends, w, again);
    } else {
      assert s2.spends == s.spends + [w, w'];
      TwiceInLog(AuditOf(env, s2, extract), s.spends, w, w');
    }
  }

  lemma AliasInLog(spends: seq<Spend>, w: Spend, again: Bytes32)
    requires again in SpentSet(spends) && BytesToFr(again) == BytesToFr(w.nullifierHash)
    ensures !Incongruent(spends + [w])
  {
    var t :| t in spends && t.nullifierHash == again;
    var i :| 0 <= i < |spends| && spends[i] == t;
    var all := spends + [w];
    assert BytesToFr(all[i].nullifierHash) == BytesToFr(all[|spends|].nullifierHash);
  }

  lemma TwiceInLog(a: Audit, spends: seq<Spend>, w: Spend, w': Spend)
    requires w' == w.(nullifierHash := w'.nullifierHash)
    requires SpendInputs(a.env, w') == SpendInputs(a.env, w)
    requires BytesToFr(w'.nullifierHash) == BytesToFr(w.nullifierHash)
    ensures a.LeafIndex(w) == a.LeafIndex(w')
    ensures !OncePerDeposit(a, spends + [w, w']) && !Incongruent(spends + [w, w'])
  {
    var all, n := spends + [w, w'], |spends|;
    assert all[n] == w && all[n + 1] == w';
    assert a.LeafIndex(all[n]) == a.LeafIndex(all[n + 1]);
    assert BytesToFr(all[n].nullifierHash) == BytesToFr(all[n + 1].nullifierHash);
  }
}

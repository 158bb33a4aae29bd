/**
 What holds over every run of the ledger: bookkeeping of leaves and nullifiers,
 the frame of withdrawals, and conservation of the pool's tokens.
 */
module LedgerRuns {
  import opened Codec
  import opened Counting
  import opened InputCodec
  import opened Ledger
  import opened Numbers
  import opened Wrappers

  lemma {:induction false} RunConcat(env: Env, pool: Address, s: State, before: seq<Call>, after: seq<Call>)
    requires Configured(s)
    ensures Run(env, pool, s, before + after) == Run(env, pool, Run(env, pool, s, before), after)
    decreases |before|
  {
    if |before| == 0 {
      assert before + after == after;
    } else {
      RunConcat(env, pool, Next(env, pool, s, before[0]), before[1..], after);
      assert (before + after)[1..] == before[1..] + after;
    }
  }

  // ----------------------------------------------------- what a run accepted

  function StepDeposits(env: Env, pool: Address, s: State, call: Call): seq<Bytes32>
    requires Configured(s)
  {
    if call.Deposit? && ReplyTo(env, pool, s, call) == Ok then [call.commitment] else []
  }

  function StepSpends(env: Env, pool: Address, s: State, call: Call): seq<Spend>
    requires Configured(s)
  {
    if call.Withdraw? && ReplyTo(env, pool, s, call) == Ok then [call.spend] else []
  }

  /** Commitments of the accepted deposits of a run, in order. */
  function Deposited(env: Env, pool: Address, s: State, calls: seq<Call>): seq<Bytes32>
    requires Configured(s)
    decreases |calls|
  {
    if |calls| == 0 then []
    else StepDeposits(env, pool, s, calls[0]) + Deposited(env, pool, Next(env, pool, s, calls[0]), calls[1..])
  }

  /** Accepted withdrawals of a run, in order. */
  function Accepted(env: Env, pool: Address, s: State, calls: seq<Call>): seq<Spend>
    requires Configured(s)
    decreases |calls|
  {
    if |calls| == 0 then []
    else StepSpends(env, pool, s, calls[0]) + Accepted(env, pool, Next(env, pool, s, calls[0]), calls[1..])
  }

  lemma StepAppends(env: Env, pool: Address, s: State, call: Call)
    requires Configured(s)
    ensures Next(env, pool, s, call).leaves == s.leaves + StepDeposits(env, pool, s, call)
    ensures Next(env, pool, s, call).spends == s.spends + StepSpends(env, pool, s, call)
    ensures s.config.Some? ==> Next(env, pool, s, call).config == s.config
  {
  }

  /** A run appends its accepted deposits and withdrawals and changes neither log otherwise. */
  lemma {:induction false} RunAppends(env: Env, pool: Address, s: State, calls: seq<Call>)
    requires Configured(s)
    ensures Run(env, pool, s, calls).leaves == s.leaves + Deposited(env, pool, s, calls)
    ensures Run(env, pool, s, calls).spends == s.spends + Accepted(env, pool, s, calls)
    ensures s.config.Some? ==> Run(env, pool, s, calls).config == s.config
    decreases |calls|
  {
    if |calls| > 0 {
      var next, rest := Next(env, pool, s, calls[0]), calls[1..];
      StepAppends(env, pool, s, calls[0]);
      RunAppends(env, pool, next, rest);
      Reassociate(s.leaves, StepDeposits(env, pool, s, calls[0]), Deposited(env, pool, next, rest));
      Reassociate(s.spends, StepSpends(env, pool, s, calls[0]), Accepted(env, pool, next, rest));
    }
  }

  lemma Reassociate<T>(a: seq<T>, b: seq<T>, c: seq<T>)
    ensures (a + b) + c == a + (b + c)
  {
  }

  // ------------------------------------------------------------- bookkeeping

  ghost predicate Distinct(leaves: seq<Bytes32>) {
    forall i, j :: 0 <= i < j < |leaves| ==> leaves[i] != leaves[j]
  }

  ghost predicate DistinctSpends(spends: seq<Spend>) {
    forall i, j :: 0 <= i < j < |spends| ==> spends[i].nullifierHash != spends[j].nullifierHash
  }

  /** An accepted withdrawal verified against some root of the log and a permitted fee. */
  ghost predicate Checked(env: Env, c: Config, leaves: seq<Bytes32>, w: Spend) {
    && w.root in RootLog(env, c.depth, leaves)
    && env.verify(w.proof, SpendInputs(env, w))
    && 0 <= w.fee <= c.maxFee
  }

  ghost predicate Inv(env: Env, s: State) {
    && Distinct(s.leaves)
    && DistinctSpends(s.spends)
    && match s.config
       case None => s.leaves == [] && s.spends == []
       case Some(c) =>
         && ValidConfig(c)
         && |s.leaves| <= Capacity(c.depth)
         && forall w :: w in s.spends ==> Checked(env, c, s.leaves, w)
  }

  lemma RootLogGrows(env: Env, depth: nat, leaves: seq<Bytes32>, more: seq<Bytes32>, j: nat)
    requires j <= |leaves|
    ensures RootLog(env, depth, leaves + more)[j] == RootLog(env, depth, leaves)[j]
  {
    assert (leaves + more)[..j] == leaves[..j];
  }

  lemma CheckedGrows(env: Env, c: Config, leaves: seq<Bytes32>, leaf: Bytes32, w: Spend)
    requires Checked(env, c, leaves, w)
    ensures Checked(env, c, leaves + [leaf], w)
  {
    var log := RootLog(env, c.depth, leaves);
    var j :| 0 <= j < |log| && log[j] == w.root;
    RootLogGrows(env, c.depth, leaves, [leaf], j);
    assert RootLog(env, c.depth, leaves + [leaf])[j] == w.root;
  }

  lemma DepositKeepsInv(env: Env, s: State, commitment: Bytes32, after: Balances)
    requires Inv(env, s) && s.config.Some?
    requires commitment !in s.leaves && |s.leaves| < Capacity(s.config.value.depth)
    ensures Inv(env, s.(leaves := s.leaves + [commitment], balances := after))
  {
    forall w | w in s.spends
      ensures Checked(env, s.config.value, s.leaves + [commitment], w)
    {
      CheckedGrows(env, s.config.value, s.leaves, commitment, w);
    }
  }

  lemma WithdrawKeepsInv(env: Env, s: State, w: Spend, after: Balances)
    requires Inv(env, s) && s.config.Some?
    requires w.nullifierHash !in SpentSet(s.spends)
    requires Checked(env, s.config.value, s.leaves, w)
    ensures Inv(env, s.(spends := s.spends + [w], balances := after))
  {
    forall i | 0 <= i < |s.spends|
      ensures s.spends[i].nullifierHash != w.nullifierHash
    {
      assert s.spends[i].nullifierHash in SpentSet(s.spends);
    }
  }

  /** The window only shows roots of the log. */
  lemma KnownIsLogged(env: Env, c: Config, leaves: seq<Bytes32>, root: Bytes32)
    requires KnownRoot(env, c, leaves, root)
    ensures root in RootLog(env, c.depth, leaves)
  {
  }

  lemma StepKeepsInv(env: Env, pool: Address, s: State, call: Call)
    requires Configured(s) && Inv(env, s)
    ensures Inv(env, Next(env, pool, s, call))
  {
    var s' := Next(env, pool, s, call);
    if ReplyTo(env, pool, s, call) == Ok {
      match call
      case Deposit(_, commitment, _) => DepositKeepsInv(env, s, commitment, s'.balances);
      case Withdraw(w) =>
        KnownIsLogged(env, s.config.value, s.leaves, w.root);
        WithdrawKeepsInv(env, s, w, s'.balances);
      case _ =>
    }
  }

  /** Every state a pool can reach satisfies the bookkeeping invariant. */
  lemma {:induction false} RunKeepsInv(env: Env, pool: Address, s: State, calls: seq<Call>)
    requires Configured(s) && Inv(env, s)
    ensures Inv(env, Run(env, pool, s, calls))
    decreases |calls|
  {
    if |calls| > 0 {
      StepKeepsInv(env, pool, s, calls[0]);
      RunKeepsInv(env, pool, Next(env, pool, s, calls[0]), calls[1..]);
    }
  }

  /**
   Deposits over any run: the commitments are pairwise distinct, as many as the
   inserted set has members, never more than the tree holds, and the next index is
   a u32 even after the last one.
   */
  lemma DepositBookkeeping(env: Env, pool: Address, s: State, calls: seq<Call>)
    requires Genesis(s)
    ensures var s' := Run(env, pool, s, calls);
      && s'.leaves == Deposited(env, pool, s, calls)
      && Distinct(s'.leaves)
      && |SetOf(s'.leaves)| == |s'.leaves|
      && (s'.config.Some? ==>
            var depth := s'.config.value.depth;
            |s'.leaves| <= (if depth < 32 then Pow2(depth) else U32_MAX) <= U32_MAX)
  {
    RunKeepsInv(env, pool, s, calls);
    RunAppends(env, pool, s, calls);
    var s' := Run(env, pool, s, calls);
    DistinctCount(s'.leaves);
    if s'.config.Some? {
      CapacityBounds(s'.config.value.depth);
    }
  }

  /**
   Withdrawals over any run: no 32-byte nullifier hash is accepted twice, and the
   spent set has one member per accepted withdrawal.
   */
  lemma SingleSpend(env: Env, pool: Address, s: State, calls: seq<Call>)
    requires Genesis(s)
    ensures DistinctSpends(Accepted(env, pool, s, calls))
    ensures |SpentSet(Run(env, pool, s, calls).spends)| == |Accepted(env, pool, s, calls)|
  {
    RunKeepsInv(env, pool, s, calls);
    RunAppends(env, pool, s, calls);
    var spends := Accepted(env, pool, s, calls);
    assert Run(env, pool, s, calls).spends == spends;
    SpentCount(spends);
  }

  lemma {:induction false} SpentCount(spends: seq<Spend>)
    requires DistinctSpends(spends)
    ensures |SpentSet(spends)| == |spends|
  {
    if |spends| > 0 {
      var n := |spends| - 1;
      var front, last := spends[..n], spends[n];
      SpentCount(front);
      assert spends == front + [last];
      assert SpentSet(spends) == SpentSet(front) + {last.nullifierHash};
    }
  }

  // ------------------------------------------------------------ conservation

  function Paid(pool: Address, to: Address, amount: int): int {
    if to == pool then amount else 0
  }

  /** Tokens that reach the pool outside deposits: gifts, mints, withdrawals paid to itself. */
  function Received(env: Env, pool: Address, s: State, call: Call): int
    requires Configured(s)
  {
    if ReplyTo(env, pool, s, call) != Ok then 0
    else match call
      case Initialize(_, _) => 0
      case Deposit(_, _, _) => 0
      case Withdraw(w) => Paid(pool, w.recipient, s.config.value.denomination - w.fee) + Paid(pool, w.relayer, w.fee)
      case TokenTransfer(_, to, amount) => Paid(pool, to, amount)
      case TokenMint(to, amount) => Paid(pool, to, amount)
  }

  function TotalReceived(env: Env, pool: Address, s: State, calls: seq<Call>): int
    requires Configured(s)
    decreases |calls|
  {
    if |calls| == 0 then 0
    else Received(env, pool, s, calls[0]) + TotalReceived(env, pool, Next(env, pool, s, calls[0]), calls[1..])
  }

  /** The denomination once configured; before that nothing is deposited. */
  function Unit(s: State): int {
    if s.config.Some? then s.config.value.denomination else 0
  }

  /** Deposits not yet matched by a withdrawal. */
  function Outstanding(s: State): int {
    |s.leaves| - |s.spends|
  }

  /** Who gains and who loses by a transfer, self-transfers included. */
  lemma TransferMoves(b: Balances, from: Address, to: Address, amount: i128, who: Address)
    requires Transfer(b, from, to, amount).Some?
    ensures 0 <= amount <= Balance(b, from)
    ensures Balance(Transfer(b, from, to, amount).value, who)
         == Balance(b, who) - Paid(who, from, amount) + Paid(who, to, amount)
  {
  }

  /**
   A payout takes one denomination from the pool, gives the recipient all but the fee
   and the relayer the fee, and leaves everybody else's balance alone.
   */
  lemma PayoutMoves(
    b: Balances, pool: Address, recipient: Address, relayer: Address, denomination: i128, fee: i128, who: Address)
    requires denomination > 0 && fee >= 0
    requires Payout(b, pool, recipient, relayer, denomination, fee).Some?
    ensures fee <= denomination
    ensures Balance(Payout(b, pool, recipient, relayer, denomination, fee).value, who)
         == Balance(b, who) - Paid(who, pool, denomination)
            + Paid(who, recipient, denomination - fee) + Paid(who, relayer, fee)
  {
    TransferMoves(b, pool, recipient, denomination - fee, who);
    if fee > 0 {
      TransferMoves(Transfer(b, pool, recipient, denomination - fee).value, pool, relayer, fee, who);
    }
  }

  /** Funds in the pool and headroom at the payees are enough for a payout. */
  lemma PayoutSucceeds(b: Balances, pool: Address, recipient: Address, relayer: Address, denomination: i128, fee: i128)
    requires 0 <= fee <= denomination && denomination > 0
    requires Balance(b, pool) >= denomination
    requires Balance(b, recipient) + denomination <= I128_MAX
    requires Balance(b, relayer) + denomination <= I128_MAX
    ensures Payout(b, pool, recipient, relayer, denomination, fee).Some?
  {
  }

  /** The token movements of accepted deposits and withdrawals, for every account. */
  lemma CallsMoveTokens(env: Env, pool: Address, s: State, call: Call, who: Address)
    requires Configured(s) && ReplyTo(env, pool, s, call) == Ok
    ensures var change := Balance(Next(env, pool, s, call).balances, who) - Balance(s.balances, who);
      match call
      case Deposit(depositor, _, _) =>
        depositor != pool && change == Paid(who, pool, Unit(s)) - Paid(who, depositor, Unit(s))
      case Withdraw(w) =>
        change == Paid(who, w.recipient, Unit(s) - w.fee) + Paid(who, w.relayer, w.fee) - Paid(who, pool, Unit(s))
      case _ => true
  {
    match call
    case Deposit(depositor, _, _) =>
      TransferMoves(s.balances, depositor, pool, s.config.value.denomination, who);
    case Withdraw(w) =>
      PayoutMoves(s.balances, pool, w.recipient, w.relayer, s.config.value.denomination, w.fee, who);
    case _ =>
  }

  /** Pool tokens not owed to an unmatched deposit. */
  function Surplus(pool: Address, s: State): int {
    Balance(s.balances, pool) - Unit(s) * Outstanding(s)
  }

  lemma DepositConserves(pool: Address, s: State, depositor: Address, commitment: Bytes32, after: Balances)
    requires s.config.Some? && depositor != pool
    requires Transfer(s.balances, depositor, pool, s.config.value.denomination) == Some(after)
    ensures Surplus(pool, s.(leaves := s.leaves + [commitment], balances := after)) == Surplus(pool, s)
  {
    assert Unit(s) * (Outstanding(s) + 1) == Unit(s) * Outstanding(s) + Unit(s);
  }

  lemma WithdrawConserves(pool: Address, s: State, w: Spend, after: Balances)
    requires s.config.Some? && s.config.value.denomination > 0 && w.fee >= 0
    requires Payout(s.balances, pool, w.recipient, w.relayer, s.config.value.denomination, w.fee) == Some(after)
    ensures w.fee <= s.config.value.denomination
    ensures Surplus(pool, s.(spends := s.spends + [w], balances := after)) == Surplus(pool, s)
      + Paid(pool, w.recipient, s.config.value.denomination - w.fee) + Paid(pool, w.relayer, w.fee)
  {
    PayoutMoves(s.balances, pool, w.recipient, w.relayer, s.config.value.denomination, w.fee, pool);
    assert Unit(s) * (Outstanding(s) - 1) == Unit(s) * Outstanding(s) - Unit(s);
  }

  lemma GiftConserves(pool: Address, s: State, from: Address, to: Address, amount: i128, after: Balances)
    requires from != pool && Transfer(s.balances, from, to, amount) == Some(after)
    ensures amount >= 0
    ensures Surplus(pool, s.(balances := after)) == Surplus(pool, s) + Paid(pool, to, amount)
  {
  }

  lemma StepConserves(env: Env, pool: Address, s: State, call: Call)
    requires Configured(s) && Inv(env, s)
    ensures Received(env, pool, s, call) >= 0
    ensures Surplus(pool, Next(env, pool, s, call)) == Surplus(pool, s) + Received(env, pool, s, call)
  {
    var s' := Next(env, pool, s, call);
    if ReplyTo(env, pool, s, call) == Ok {
      match call
      case Initialize(_, _) =>
      case Deposit(depositor, commitment, _) => DepositConserves(pool, s, depositor, commitment, s'.balances);
      case Withdraw(w) => WithdrawConserves(pool, s, w, s'.balances);
      case TokenTransfer(from, to, amount) => GiftConserves(pool, s, from, to, amount, s'.balances);
      case TokenMint(_, _) =>
    }
  }

  /**
   Conservation: over every run the pool's balance changes by exactly one
   denomination per unmatched deposit plus what it received otherwise.
   */
  lemma {:induction false} RunConserves(env: Env, pool: Address, s: State, calls: seq<Call>)
    requires Configured(s) && Inv(env, s)
    ensures TotalReceived(env, pool, s, calls) >= 0
    ensures Surplus(pool, Run(env, pool, s, calls)) == Surplus(pool, s) + TotalReceived(env, pool, s, calls)
    decreases |calls|
  {
    if |calls| > 0 {
      StepConserves(env, pool, s, calls[0]);
      StepKeepsInv(env, pool, s, calls[0]);
      RunConserves(env, pool, Next(env, pool, s, calls[0]), calls[1..]);
    }
  }

  /** Nobody pays the pool except by depositing, and no withdrawal is paid to it. */
  predicate Quiet(pool: Address, call: Call) {
    match call
    case Withdraw(w) => w.recipient != pool && w.relayer != pool
    case TokenTransfer(_, to, _) => to != pool
    case TokenMint(to, _) => to != pool
    case _ => true
  }

  lemma {:induction false} QuietReceivesNothing(env: Env, pool: Address, s: State, calls: seq<Call>)
    requires Configured(s)
    requires forall i :: 0 <= i < |calls| ==> Quiet(pool, calls[i])
    ensures TotalReceived(env, pool, s, calls) == 0
    decreases |calls|
  {
    if |calls| > 0 {
      assert Quiet(pool, calls[0]);
      QuietReceivesNothing(env, pool, Next(env, pool, s, calls[0]), calls[1..]);
    }
  }

  /**
   Solvency over every run from deployment: the pool holds at least one
   denomination for each deposit not matched by a withdrawal, and exactly that on
   top of what it started with when nobody pays it otherwise.
   */
  lemma Solvency(env: Env, pool: Address, s: State, calls: seq<Call>)
    requires Genesis(s)
    ensures var s' := Run(env, pool, s, calls);
      && Balance(s'.balances, pool) >= Unit(s') * Outstanding(s')
      && ((forall i :: 0 <= i < |calls| ==> Quiet(pool, calls[i])) ==>
            Balance(s'.balances, pool) == Balance(s.balances, pool) + Unit(s') * Outstanding(s'))
  {
    RunConserves(env, pool, s, calls);
    if forall i :: 0 <= i < |calls| ==> Quiet(pool, calls[i]) {
      QuietReceivesNothing(env, pool, s, calls);
    }
  }
}

/**
 The pool as its callers see it: configuration and replies told from the calls made
 since deployment, with every limit written out.
 */
module PoolHistory {
  import opened Codec
  import opened InputCodec
  import opened Ledger
  import opened LedgerRuns
  import opened MerkleSpec
  import opened Numbers
  import opened SingleWithdrawal
  import opened TreeHashes
  import opened Wrappers

  // ------------------------------------------------------- the configuration

  /** An authorized initialization with valid arguments. */
  predicate Initializes(call: Call) {
    && call.Initialize? && call.authorized
    && call.config.denomination > 0 && 1 <= call.config.depth <= 32 && call.config.historySize > 0
  }

  /** Call k is the first that configures the pool. */
  ghost predicate FirstInitialize(calls: seq<Call>, k: int) {
    0 <= k < |calls| && Initializes(calls[k]) && forall j :: 0 <= j < k ==> !Initializes(calls[j])
  }

  ghost predicate Initialized(calls: seq<Call>) {
    exists k :: 0 <= k < |calls| && Initializes(calls[k])
  }

  /** Over every run the configuration is the argument of the first valid initialization, to the letter. */
  lemma {:induction false} ConfigurationIsFirst(env: Env, pool: Address, s: State, calls: seq<Call>)
    requires s.config.None?
    ensures match Run(env, pool, s, calls).config
      case None => !Initialized(calls)
      case Some(c) => exists k :: FirstInitialize(calls, k) && calls[k].config == c
    decreases |calls|
  {
    if |calls| > 0 {
      var next, rest := Next(env, pool, s, calls[0]), calls[1..];
      RunAppends(env, pool, next, rest);
      if Initializes(calls[0]) {
        assert FirstInitialize(calls, 0);
      } else {
        ConfigurationIsFirst(env, pool, next, rest);
        if k :| FirstInitialize(rest, k) && Run(env, pool, s, calls).config == Some(rest[k].config) {
          forall j | 0 <= j < k + 1
            ensures !Initializes(calls[j])
          {
            assert j > 0 ==> calls[j] == rest[j - 1];
          }
          assert FirstInitialize(calls, k + 1);
        } else {
          forall j | 0 <= j < |calls|
            ensures !Initializes(calls[j])
          {
            assert j > 0 ==> calls[j] == rest[j - 1];
          }
        }
      }
    }
  }

  /**
   The reply to an initialization after any run from deployment. An accepted one leaves
   an empty pool with exactly the caller's arguments; it is accepted once.
   */
  lemma InitializeReplies(env: Env, pool: Address, genesis: State, calls: seq<Call>, c: Config, authorized: bool)
    requires Genesis(genesis)
    ensures var (s, call) := (Run(env, pool, genesis, calls), Call.Initialize(c, authorized));
      && ReplyTo(env, pool, s, call) == (
           if Initialized(calls) then Err(AlreadyInitialized)
           else if c.denomination <= 0 then Err(InvalidDenomination)
           else if c.depth < 1 || c.depth > 32 then Err(InvalidTreeDepth)
           else if c.historySize == 0 then Err(InvalidRootHistorySize)
           else if authorized then Ok
           else Trap)
      && (ReplyTo(env, pool, s, call) == Ok ==>
            Run(env, pool, genesis, calls + [call]) == State(Some(c), [], [], s.balances))
  {
    ConfigurationIsFirst(env, pool, genesis, calls);
    RunKeepsInv(env, pool, genesis, calls);
    RunOneMore(env, pool, genesis, calls, Call.Initialize(c, authorized));
  }

  // ----------------------------------------------------------------- tokens

  /** A transfer happens exactly for a covered amount that the receiver can hold. */
  lemma TransferIff(b: Balances, from: Address, to: Address, amount: i128)
    ensures Transfer(b, from, to, amount).Some? <==>
      && 0 <= amount <= Balance(b, from)
      && (from != to ==> Balance(b, to) + amount < 0x8000_0000_0000_0000_0000_0000_0000_0000)
  {
  }

  /** When the two transfers of a withdrawal both happen; a payee may be the pool itself. */
  predicate Affordable(b: Balances, pool: Address, w: Spend, denomination: i128) {
    var share := denomination - w.fee;
    && 0 <= w.fee <= denomination && share <= Balance(b, pool)
    && (w.recipient != pool ==> Balance(b, w.recipient) + share < 0x8000_0000_0000_0000_0000_0000_0000_0000)
    && (w.fee > 0 ==> w.fee <= Balance(b, pool) - if w.recipient == pool then 0 else share)
    && (w.fee > 0 && w.relayer != pool ==>
          Balance(b, w.relayer) + Paid(w.relayer, w.recipient, share) + w.fee
            < 0x8000_0000_0000_0000_0000_0000_0000_0000)
  }

  lemma PayoutIff(b: Balances, pool: Address, w: Spend, denomination: i128)
    requires denomination > 0 && w.fee >= 0
    ensures Payout(b, pool, w.recipient, w.relayer, denomination, w.fee).Some? <==> Affordable(b, pool, w, denomination)
  {
    TransferIff(b, pool, w.recipient, denomination - w.fee);
    match Transfer(b, pool, w.recipient, denomination - w.fee)
    case None =>
    case Some(paid) =>
      TransferMoves(b, pool, w.recipient, denomination - w.fee, pool);
      TransferMoves(b, pool, w.recipient, denomination - w.fee, w.relayer);
      TransferIff(paid, pool, w.relayer, w.fee);
  }

  // --------------------------------------------------------------- deposits

  /** How many leaves fit a tree. */
  function Room(depth: u32): nat {
    if depth == 32 then 0xFFFF_FFFF else Pow2(depth)
  }

  /** The depositor can pay and the pool can hold n denominations. */
  predicate Funded(b: Balances, pool: Address, depositor: Address, denomination: i128, n: nat) {
    && denomination * n <= Balance(b, depositor)
    && Balance(b, pool) + denomination * n < 0x8000_0000_0000_0000_0000_0000_0000_0000
  }

  /**
   The reply to a deposit after any run from deployment, and what it does: an earlier
   accepted commitment is a duplicate, a new one finds the tree full or is accepted.
   */
  lemma DepositReplies(
    env: Env, pool: Address, genesis: State, calls: seq<Call>,
    depositor: Address, commitment: Bytes32, authorized: bool)
    requires Genesis(genesis)
    ensures var (s, call) := (Run(env, pool, genesis, calls), Call.Deposit(depositor, commitment, authorized));
      var (made, s') := (Deposited(env, pool, genesis, calls), Run(env, pool, genesis, calls + [call]));
      && ReplyTo(env, pool, s, call) == (
           if !authorized || depositor == pool then Trap
           else if commitment in made then Err(DuplicateCommitment)
           else if s.config.None? then Trap
           else if |made| == Room(s.config.value.depth) then Err(TreeFull)
           else if Funded(s.balances, pool, depositor, s.config.value.denomination, 1) then Ok
           else Trap)
      && (ReplyTo(env, pool, s, call) == Ok ==>
            && s'.config == s.config && s'.leaves == made + [commitment] && s'.spends == s.spends
            && forall who :: Balance(s'.balances, who) == Balance(s.balances, who)
                 + Paid(who, pool, s.config.value.denomination) - Paid(who, depositor, s.config.value.denomination))
      && (ReplyTo(env, pool, s, call) != Ok ==> s' == s)
  {
    var s, call := Run(env, pool, genesis, calls), Call.Deposit(depositor, commitment, authorized);
    DepositBookkeeping(env, pool, genesis, calls);
    RunOneMore(env, pool, genesis, calls, call);
    if s.config.Some? {
      var c := s.config.value;
      RunKeepsInv(env, pool, genesis, calls);
      CapacityBounds(c.depth);
      Pow2Of32();
      TransferIff(s.balances, depositor, pool, c.denomination);
      if ReplyTo(env, pool, s, call) == Ok {
        forall who
          ensures Balance(Next(env, pool, s, call).balances, who) == Balance(s.balances, who)
            + Paid(who, pool, c.denomination) - Paid(who, depositor, c.denomination)
        {
          CallsMoveTokens(env, pool, s, call, who);
        }
      }
    }
  }

  datatype Order = Order(depositor: Address, commitment: Bytes32)

  function DepositCalls(orders: seq<Order>): (calls: seq<Call>)
    ensures |calls| == |orders|
  {
    seq(|orders|, i requires 0 <= i < |orders| => Call.Deposit(orders[i].depositor, orders[i].commitment, true))
  }

  function Commitments(orders: seq<Order>): (commitments: seq<Bytes32>)
    ensures |commitments| == |orders|
  {
    seq(|orders|, i requires 0 <= i < |orders| => orders[i].commitment)
  }

  /** How many of the orders are this depositor's. */
  function OrdersOf(orders: seq<Order>, who: Address): nat {
    if |orders| == 0 then 0
    else OrdersOf(orders[..|orders| - 1], who) + if orders[|orders| - 1].depositor == who then 1 else 0
  }

  /** New commitments that fit the tree, from others than the pool, who can pay for all of theirs. */
  ghost predicate Acceptable(pool: Address, s: State, orders: seq<Order>)
    requires s.config.Some?
  {
    var d := s.config.value.denomination;
    && Distinct(s.leaves + Commitments(orders))
    && |s.leaves| + |orders| <= Room(s.config.value.depth)
    && (forall i :: 0 <= i < |orders| ==> orders[i].depositor != pool)
    && (forall who :: d * OrdersOf(orders, who) <= Balance(s.balances, who))
    && Balance(s.balances, pool) + d * |orders| < 0x8000_0000_0000_0000_0000_0000_0000_0000
  }

  /** What accepting all of the orders does. */
  ghost predicate AllDeposited(pool: Address, s: State, orders: seq<Order>, s': State)
    requires s.config.Some?
  {
    var d := s.config.value.denomination;
    && s'.config == s.config && s'.leaves == s.leaves + Commitments(orders) && s'.spends == s.spends
    && (forall who :: Balance(s'.balances, who)
          == Balance(s.balances, who) + Paid(who, pool, d * |orders|) - d * OrdersOf(orders, who))
  }

  lemma {:induction false} AtMostOneEach(env: Env, pool: Address, s: State, calls: seq<Call>)
    requires Configured(s)
    ensures |Run(env, pool, s, calls).leaves| <= |s.leaves| + |calls|
    decreases |calls|
  {
    if |calls| > 0 {
      AtMostOneEach(env, pool, Next(env, pool, s, calls[0]), calls[1..]);
    }
  }

  lemma {:induction false} NoOrders(orders: seq<Order>, who: Address)
    requires forall i :: 0 <= i < |orders| ==> orders[i].depositor != who
    ensures OrdersOf(orders, who) == 0
  {
    if |orders| > 0 {
      NoOrders(orders[..|orders| - 1], who);
    }
  }

  lemma PushOrder(orders: seq<Order>, x: Order)
    ensures DepositCalls(orders + [x]) == DepositCalls(orders) + [Call.Deposit(x.depositor, x.commitment, true)]
    ensures Commitments(orders + [x]) == Commitments(orders) + [x.commitment]
    ensures forall who :: OrdersOf(orders + [x], who) == OrdersOf(orders, who) + if x.depositor == who then 1 else 0
  {
    assert (orders + [x])[..|orders|] == orders;
  }

  lemma DistinctPush(leaves: seq<Bytes32>, leaf: Bytes32)
    ensures Distinct(leaves + [leaf]) <==> Distinct(leaves) && leaf !in leaves
  {
    var all := leaves + [leaf];
    if Distinct(all) {
      forall i | 0 <= i < |leaves|
        ensures leaves[i] == all[i] && leaves[i] != leaf
      {
        assert all[i] != all[|leaves|];
      }
    }
  }

  lemma Times(d: int, n: int)
    ensures d * (n + 1) == d * n + d
  {
  }

  /** One more order is acceptable exactly when the deposit succeeds where the others left the pool. */
  lemma OneMoreOrder(env: Env, pool: Address, s: State, orders: seq<Order>, x: Order, s': State)
    requires Configured(s) && s.config.Some?
    requires Acceptable(pool, s, orders) && AllDeposited(pool, s, orders, s')
    ensures Configured(s')
    ensures var reply := ReplyTo(env, pool, s', Call.Deposit(x.depositor, x.commitment, true));
      reply == Ok <==> Acceptable(pool, s, orders + [x])
  {
    var d, all := s.config.value.denomination, orders + [x];
    var n, m := |orders|, OrdersOf(orders, x.depositor);
    PushOrder(orders, x);
    DistinctPush(s.leaves + Commitments(orders), x.commitment);
    assert s.leaves + Commitments(all) == s'.leaves + [x.commitment];
    CapacityBounds(s.config.value.depth);
    Pow2Of32();
    TransferIff(s'.balances, x.depositor, pool, d);
    Times(d, n);
    Times(d, m);
    NoOrders(orders, pool);
    assert all[n] == x;
    assert Acceptable(pool, s, all) <==>
      && x.commitment !in s'.leaves && |s'.leaves| + 1 <= Room(s.config.value.depth)
      && x.depositor != pool && d * (m + 1) <= Balance(s.balances, x.depositor)
      && Balance(s.balances, pool) + d * (n + 1) < 0x8000_0000_0000_0000_0000_0000_0000_0000;
  }

  lemma FewerAcceptable(pool: Address, s: State, orders: seq<Order>, x: Order)
    requires Configured(s) && s.config.Some?
    requires Acceptable(pool, s, orders + [x])
    ensures Acceptable(pool, s, orders)
  {
    var d, all := s.config.value.denomination, orders + [x];
    PushOrder(orders, x);
    assert s.leaves + Commitments(all) == (s.leaves + Commitments(orders)) + [x.commitment];
    DistinctPush(s.leaves + Commitments(orders), x.commitment);
    Times(d, |orders|);
    forall i | 0 <= i < |orders|
      ensures orders[i].depositor != pool
    {
      assert all[i] == orders[i];
    }
    forall who
      ensures d * OrdersOf(orders, who) <= Balance(s.balances, who)
    {
      Times(d, OrdersOf(orders, who));
      assert d * OrdersOf(all, who) <= Balance(s.balances, who);
    }
  }

  /** The accepted deposit adds its own payment to those of the orders before. */
  lemma OneMoreDeposited(env: Env, pool: Address, s: State, orders: seq<Order>, x: Order, s': State)
    requires Configured(s) && s.config.Some? && Configured(s')
    requires AllDeposited(pool, s, orders, s')
    requires ReplyTo(env, pool, s', Call.Deposit(x.depositor, x.commitment, true)) == Ok
    ensures AllDeposited(pool, s, orders + [x], Next(env, pool, s', Call.Deposit(x.depositor, x.commitment, true)))
  {
    var d, all, call := s.config.value.denomination, orders + [x], Call.Deposit(x.depositor, x.commitment, true);
    PushOrder(orders, x);
    assert s'.leaves + [x.commitment] == s.leaves + Commitments(all);
    Times(d, |orders|);
    forall who
      ensures Balance(Next(env, pool, s', call).balances, who)
        == Balance(s.balances, who) + Paid(who, pool, d * |all|) - d * OrdersOf(all, who)
    {
      CallsMoveTokens(env, pool, s', call, who);
      Times(d, OrdersOf(orders, who));
    }
  }

  /**
   A list of deposits is accepted in full and in order exactly when the commitments are
   new and fit the tree and their depositors can pay for all of them; then the pool has
   a denomination more for each, paid by the one who ordered it.
   */
  lemma {:induction false} DepositsAcceptedIff(env: Env, pool: Address, s: State, orders: seq<Order>)
    requires Configured(s) && s.config.Some?
    requires Distinct(s.leaves) && |s.leaves| <= Room(s.config.value.depth)
    ensures var s' := Run(env, pool, s, DepositCalls(orders));
      && (s'.leaves == s.leaves + Commitments(orders) <==> Acceptable(pool, s, orders))
      && (Acceptable(pool, s, orders) ==> AllDeposited(pool, s, orders, s'))
    decreases |orders|
  {
    if |orders| == 0 {
      assert s.leaves + [] == s.leaves;
    } else {
      var n := |orders| - 1;
      var front, x := orders[..n], orders[n];
      assert orders == front + [x];
      PushOrder(front, x);
      DepositsAcceptedIff(env, pool, s, front);
      var s1, call := Run(env, pool, s, DepositCalls(front)), Call.Deposit(x.depositor, x.commitment, true);
      RunOneMore(env, pool, s, DepositCalls(front), call);
      StepAppends(env, pool, s1, call);
      AtMostOneEach(env, pool, s, DepositCalls(front));
      var s' := Next(env, pool, s1, call);
      if Acceptable(pool, s, orders) {
        FewerAcceptable(pool, s, front, x);
        OneMoreOrder(env, pool, s, front, x, s1);
        OneMoreDeposited(env, pool, s, front, x, s1);
      } else if s'.leaves == s.leaves + Commitments(orders) {
        assert |s1.leaves| == |s.leaves| + n;
        assert s1.leaves == s'.leaves[..|s1.leaves|] == s.leaves + Commitments(front);
        OneMoreOrder(env, pool, s, front, x, s1);
        assert false;
      }
    }
  }

  /** The same after any run from deployment: every reachable pool takes deposits until its tree is full. */
  lemma ReachablePoolAccepts(env: Env, pool: Address, genesis: State, calls: seq<Call>, orders: seq<Order>)
    requires Genesis(genesis) && Run(env, pool, genesis, calls).config.Some?
    ensures var s := Run(env, pool, genesis, calls);
      var s' := Run(env, pool, genesis, calls + DepositCalls(orders));
      && (s'.leaves == s.leaves + Commitments(orders) <==> Acceptable(pool, s, orders))
      && (Acceptable(pool, s, orders) ==> AllDeposited(pool, s, orders, s'))
  {
    var s := Run(env, pool, genesis, calls);
    RunKeepsInv(env, pool, genesis, calls);
    CapacityBounds(s.config.value.depth);
    Pow2Of32();
    RunConcat(env, pool, genesis, calls, DepositCalls(orders));
    DepositsAcceptedIff(env, pool, s, orders);
  }

  function OrdersBy(depositor: Address, commitments: seq<Bytes32>): (orders: seq<Order>)
    ensures |orders| == |commitments|
  {
    seq(|commitments|, i requires 0 <= i < |commitments| => Order(depositor, commitments[i]))
  }

  lemma {:induction false} OrdersOfOne(depositor: Address, commitments: seq<Bytes32>)
    ensures forall who ::
      OrdersOf(OrdersBy(depositor, commitments), who) == if who == depositor then |commitments| else 0
  {
    if |commitments| > 0 {
      var n := |commitments| - 1;
      OrdersOfOne(depositor, commitments[..n]);
      assert OrdersBy(depositor, commitments)[..n] == OrdersBy(depositor, commitments[..n]);
    }
  }

  /** A funded depositor's orders are acceptable when the commitments are new and fit. */
  lemma FundedOrders(pool: Address, s: State, depositor: Address, commitments: seq<Bytes32>)
    requires Configured(s) && s.config.Some? && depositor != pool
    requires Funded(s.balances, pool, depositor, s.config.value.denomination, |commitments|)
    ensures Commitments(OrdersBy(depositor, commitments)) == commitments
    ensures Acceptable(pool, s, OrdersBy(depositor, commitments)) <==>
      Distinct(s.leaves + commitments) && |s.leaves| + |commitments| <= Room(s.config.value.depth)
  {
    assert Commitments(OrdersBy(depositor, commitments)) == commitments;
    OrdersOfOne(depositor, commitments);
  }

  lemma Initialization(env: Env, pool: Address, genesis: State, c: Config)
    requires Genesis(genesis) && Initializes(Call.Initialize(c, true))
    ensures Run(env, pool, genesis, [Call.Initialize(c, true)]) == State(Some(c), [], [], genesis.balances)
  {
    assert [] + [Call.Initialize(c, true)] == [Call.Initialize(c, true)];
    InitializeReplies(env, pool, genesis, [], c, true);
  }

  /**
   From deployment: initialized with valid arguments, a pool takes 2^depth pairwise
   different commitments of a funded depositor, one less at depth 32, and no other list.
   */
  lemma FreshPoolAccepts(
    env: Env, pool: Address, genesis: State, c: Config, depositor: Address, commitments: seq<Bytes32>)
    requires Genesis(genesis) && Initializes(Call.Initialize(c, true)) && depositor != pool
    requires Funded(genesis.balances, pool, depositor, c.denomination, |commitments|)
    ensures var s := Run(env, pool, genesis,
        [Call.Initialize(c, true)] + DepositCalls(OrdersBy(depositor, commitments)));
      && (s.leaves == commitments <==>
            Distinct(commitments) && |commitments| <= if c.depth == 32 then 0xFFFF_FFFF else Pow2(c.depth))
      && (s.leaves == commitments ==>
            && s.config == Some(c) && s.spends == []
            && Balance(s.balances, pool) == Balance(genesis.balances, pool) + c.denomination * |commitments|)
  {
    var orders, s := OrdersBy(depositor, commitments), State(Some(c), [], [], genesis.balances);
    Initialization(env, pool, genesis, c);
    RunConcat(env, pool, genesis, [Call.Initialize(c, true)], DepositCalls(orders));
    DepositsAcceptedIff(env, pool, s, orders);
    FundedOrders(pool, s, depositor, commitments);
    OrdersOfOne(depositor, commitments);
    assert [] + commitments == commitments;
  }

  // ------------------------------------------------------------ withdrawals

  /** The root after m deposits is this one, and fewer than historySize deposits followed. */
  ghost predicate RecentRoot(env: Env, c: Config, leaves: seq<Bytes32>, root: Bytes32) {
    exists m :: 0 <= m <= |leaves| < m + c.historySize && Root(BytesHasher(env.h), c.depth, leaves[..m]) == root
  }

  lemma InWindowIff(log: seq<Bytes32>, size: nat, root: Bytes32)
    ensures root in Window(log, size) <==> exists m :: 0 <= m < |log| <= m + size && log[m] == root
  {
    var start := if |log| <= size then 0 else |log| - size;
    assert Window(log, size) == log[start..];
    if root in log[start..] {
      var d :| 0 <= d < |log| - start && log[start..][d] == root;
      assert log[start + d] == root;
    }
    if m :| 0 <= m < |log| <= m + size && log[m] == root {
      assert log[start..][m - start] == root;
    }
  }

  lemma KnownIsRecent(env: Env, c: Config, leaves: seq<Bytes32>, root: Bytes32)
    ensures KnownRoot(env, c, leaves, root) <==> RecentRoot(env, c, leaves, root)
  {
    var log := RootLog(env, c.depth, leaves);
    InWindowIff(log, c.historySize, root);
    forall m | 0 <= m <= |leaves|
      ensures log[m] == Root(BytesHasher(env.h), c.depth, leaves[..m])
    {
    }
  }

  /** An accepted withdrawal carried these 32 bytes. */
  ghost predicate HashAccepted(spends: seq<Spend>, nullifierHash: Bytes32) {
    exists k :: 0 <= k < |spends| && spends[k].nullifierHash == nullifierHash
  }

  lemma SpentIsAccepted(spends: seq<Spend>, nullifierHash: Bytes32)
    ensures nullifierHash in SpentSet(spends) <==> HashAccepted(spends, nullifierHash)
  {
    if nullifierHash in SpentSet(spends) {
      var t :| t in spends && t.nullifierHash == nullifierHash;
      var k :| 0 <= k < |spends| && spends[k] == t;
    }
    if k :| 0 <= k < |spends| && spends[k].nullifierHash == nullifierHash {
      assert spends[k] in spends;
    }
  }

  lemma WithdrawReplyIn(env: Env, pool: Address, s: State, w: Spend)
    requires Configured(s) && s.config.Some?
    ensures var c := s.config.value;
      WithdrawReply(env, pool, s, w) ==
        if !RecentRoot(env, c, s.leaves, w.root) then Err(InvalidRoot)
        else if HashAccepted(s.spends, w.nullifierHash) then Err(NullifierSpent)
        else if w.fee < 0 || c.maxFee < w.fee then Err(FeeTooHigh)
        else if !env.verify(w.proof, SpendInputs(env, w)) then Err(InvalidProof)
        else if Affordable(s.balances, pool, w, c.denomination) then Ok
        else Trap
  {
    KnownIsRecent(env, s.config.value, s.leaves, w.root);
    SpentIsAccepted(s.spends, w.nullifierHash);
    if w.fee >= 0 {
      PayoutIff(s.balances, pool, w, s.config.value.denomination);
    }
  }

  /** Who gained and who lost by a paid withdrawal. */
  ghost predicate PaidOut(
    before: Balances, after: Balances,
    pool: Address, recipient: Address, relayer: Address, denomination: i128, fee: i128)
  {
    forall who :: Balance(after, who) == Balance(before, who) - Paid(who, pool, denomination)
      + Paid(who, recipient, denomination - fee) + Paid(who, relayer, fee)
  }

  lemma WithdrawalPays(env: Env, pool: Address, s: State, w: Spend)
    requires Configured(s) && ReplyTo(env, pool, s, Call.Withdraw(w)) == Ok
    ensures var s' := Next(env, pool, s, Call.Withdraw(w));
      && s'.config == s.config && s'.leaves == s.leaves && s'.spends == s.spends + [w]
      && PaidOut(s.balances, s'.balances, pool, w.recipient, w.relayer, s.config.value.denomination, w.fee)
  {
    forall who
      ensures Balance(Next(env, pool, s, Call.Withdraw(w)).balances, who)
        == Balance(s.balances, who) - Paid(who, pool, s.config.value.denomination)
           + Paid(who, w.recipient, s.config.value.denomination - w.fee) + Paid(who, w.relayer, w.fee)
    {
      CallsMoveTokens(env, pool, s, Call.Withdraw(w), who);
    }
  }

  /**
   The reply to a withdrawal after any run from deployment, and what it does: an unknown
   root, an accepted hash, a fee out of bounds and a rejected proof each get their own
   error, in this order; the rest is paid, to the two payees and nobody else, if the
   pool can pay.
   */
  lemma WithdrawReplies(env: Env, pool: Address, genesis: State, calls: seq<Call>, w: Spend)
    requires Genesis(genesis)
    ensures var (s, s') := (Run(env, pool, genesis, calls), Run(env, pool, genesis, calls + [Call.Withdraw(w)]));
      var (made, taken) := (Deposited(env, pool, genesis, calls), Accepted(env, pool, genesis, calls));
      var reply := ReplyTo(env, pool, s, Call.Withdraw(w));
      && (reply != Ok ==> s' == s)
      && match s.config
         case None => reply == Trap
         case Some(c) =>
           && reply == (
                if !RecentRoot(env, c, made, w.root) then Err(InvalidRoot)
                else if HashAccepted(taken, w.nullifierHash) then Err(NullifierSpent)
                else if w.fee < 0 || c.maxFee < w.fee then Err(FeeTooHigh)
                else if !env.verify(w.proof, SpendInputs(env, w)) then Err(InvalidProof)
                else if Affordable(s.balances, pool, w, c.denomination) then Ok
                else Trap)
           && (reply == Ok ==>
                 && s'.config == s.config && s'.leaves == made && s'.spends == taken + [w]
                 && PaidOut(s.balances, s'.balances, pool, w.recipient, w.relayer, c.denomination, w.fee))
  {
    var s := Run(env, pool, genesis, calls);
    RunAppends(env, pool, genesis, calls);
    assert s.leaves == Deposited(env, pool, genesis, calls) && s.spends == Accepted(env, pool, genesis, calls);
    RunOneMore(env, pool, genesis, calls, Call.Withdraw(w));
    if s.config.Some? {
      WithdrawReplyIn(env, pool, s, w);
      if ReplyTo(env, pool, s, Call.Withdraw(w)) == Ok {
        WithdrawalPays(env, pool, s, w);
      }
    }
  }
}

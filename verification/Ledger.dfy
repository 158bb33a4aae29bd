/**
 The pool as a state machine over whole calls: what each entry point does to the
 deposited leaves, the accepted withdrawals and the token balances, error
 branches included. The imperative contract is proved to follow it.
 */
module Ledger {
  import opened Circuit
  import opened Codec
  import opened Field
  import opened MerkleSpec
  import opened Numbers
  import opened InputCodec
  import opened TreeHashes
  import opened Wrappers

  datatype MixerError =
    | AlreadyInitialized
    | DuplicateCommitment
    | TreeFull
    | InvalidRoot
    | NullifierSpent
    | InvalidProof
    | FeeTooHigh
    | InvalidDenomination
    | InvalidTreeDepth
    | InvalidRootHistorySize

  /** Err and Trap both roll the whole call back. */
  datatype Reply = Ok | Err(error: MixerError) | Trap

  datatype Config = Config(
    admin: Address, token: Address,
    denomination: i128, maxFee: i128,
    depth: u32, historySize: u32)

  /** Arguments of an accepted withdrawal. */
  datatype Spend = Spend(
    proof: ProofBytes, root: Bytes32, nullifierHash: Bytes32,
    recipient: Address, relayer: Address, fee: i128)

  type Tokens = x: int | 0 <= x <= I128_MAX
  type Balances = map<Address, Tokens>

  datatype State = State(
    config: Option<Config>,
    leaves: seq<Bytes32>,
    spends: seq<Spend>,
    balances: Balances)

  datatype Call =
    | Initialize(config: Config, authorized: bool)
    | Deposit(depositor: Address, commitment: Bytes32, authorized: bool)
    | Withdraw(spend: Spend)
    | TokenTransfer(from: Address, to: Address, amount: i128)
    | TokenMint(to: Address, amount: i128)

  // ----------------------------------------------------------------- token

  function Balance(b: Balances, who: Address): Tokens {
    if who in b then b[who] else 0
  }

  /** Adds to a balance unless the sum leaves the i128 range. */
  function Credit(b: Balances, to: Address, amount: Tokens): Option<Balances> {
    if Balance(b, to) + amount > I128_MAX then None else Some(b[to := Balance(b, to) + amount])
  }

  /** The token refuses negative amounts and overdrafts. */
  function Transfer(b: Balances, from: Address, to: Address, amount: i128): Option<Balances> {
    if amount < 0 || Balance(b, from) < amount then None
    else Credit(b[from := Balance(b, from) - amount], to, amount)
  }

  /** The two transfers of a withdrawal. */
  function Payout(
    b: Balances, pool: Address, recipient: Address, relayer: Address, denomination: i128, fee: i128): Option<Balances>
    requires denomination > 0 && fee >= 0
  {
    match Transfer(b, pool, recipient, denomination - fee)
    case None => None
    case Some(paid) => if fee > 0 then Transfer(paid, pool, relayer, fee) else Some(paid)
  }

  // ------------------------------------------------------------- the calls

  predicate ValidConfig(c: Config) {
    c.denomination > 0 && 1 <= c.depth <= 32 && c.historySize > 0
  }

  /** `checked_shl` saturates to the largest u32 at depth 32. */
  function Capacity(depth: u32): nat {
    if depth < 32 then Pow2(depth) else U32_MAX
  }

  /** All 2^depth leaves fit, except at depth 32, where the last one does not. */
  lemma CapacityBounds(depth: u32)
    requires depth <= 32
    ensures Capacity(depth) == Pow2(depth) <==> depth < 32
    ensures depth == 32 ==> Capacity(depth) == Pow2(depth) - 1
    ensures Capacity(depth) <= U32_MAX && Capacity(depth) <= Pow2(depth)
  {
    Pow2Of32();
    if depth < 32 {
      Pow2Monotone(depth, 31);
    }
  }

  /** The last `size` roots pushed. */
  function Window(roots: seq<Bytes32>, size: nat): seq<Bytes32> {
    if |roots| <= size then roots else roots[|roots| - size..]
  }

  function RootLog(env: Env, depth: nat, leaves: seq<Bytes32>): seq<Bytes32> {
    Roots(BytesHasher(env.h), depth, leaves)
  }

  predicate KnownRoot(env: Env, c: Config, leaves: seq<Bytes32>, root: Bytes32) {
    root in Window(RootLog(env, c.depth, leaves), c.historySize)
  }

  function SpentSet(spends: seq<Spend>): set<Bytes32> {
    set s | s in spends :: s.nullifierHash
  }

  lemma SpentSetPush(spends: seq<Spend>, w: Spend)
    ensures SpentSet(spends + [w]) == SpentSet(spends) + {w.nullifierHash}
  {
  }

  function SpendInputs(env: Env, s: Spend): PublicInputs {
    Scalars(ContractInputs(env, s.root, s.nullifierHash, s.recipient, s.relayer, s.fee))
  }

  /** Two different strkey prefixes whose SHA-256 hashes are congruent mod p. */
  predicate AddressCollision(env: Env, a: Address, b: Address) {
    && AddressPrefix(a) != AddressPrefix(b)
    && BytesToFr(env.sha256(AddressPrefix(a))) == BytesToFr(env.sha256(AddressPrefix(b)))
  }

  /**
   Withdrawals with the same scalars have the same fee, root and nullifier residues,
   and the same payees unless the addresses exhibit a collision: what a proof is for
   cannot be exchanged.
   */
  lemma ScalarsBind(env: Env, s: Spend, t: Spend)
    requires SpendInputs(env, s) == SpendInputs(env, t)
    requires s.fee >= 0 && t.fee >= 0
    ensures s.fee == t.fee
    ensures BytesToFr(s.root) == BytesToFr(t.root)
    ensures BytesToFr(s.nullifierHash) == BytesToFr(t.nullifierHash)
    ensures AddressPrefix(s.recipient) == AddressPrefix(t.recipient) || AddressCollision(env, s.recipient, t.recipient)
    ensures AddressPrefix(s.relayer) == AddressPrefix(t.relayer) || AddressCollision(env, s.relayer, t.relayer)
  {
    var x, y := SpendInputs(env, s), SpendInputs(env, t);
    assert x[0] == y[0] && x[1] == y[1] && x[2] == y[2] && x[3] == y[3] && x[4] == y[4];
    FeeScalar(s.fee);
    FeeScalar(t.fee);
  }

  function InitializeReply(s: State, config: Config, authorized: bool): Reply {
    if s.config.Some? then Err(AlreadyInitialized)
    else if config.denomination <= 0 then Err(InvalidDenomination)
    else if config.depth == 0 || config.depth > 32 then Err(InvalidTreeDepth)
    else if config.historySize == 0 then Err(InvalidRootHistorySize)
    else if !authorized then Trap
    else Ok
  }

  /** A pool never authorizes calls in its own name, so it is never a depositor. */
  function DepositReply(pool: Address, s: State, depositor: Address, commitment: Bytes32, authorized: bool): Reply {
    if !authorized || depositor == pool then Trap
    else if commitment in s.leaves then Err(DuplicateCommitment)
    else if s.config.None? then Trap
    else if |s.leaves| >= Capacity(s.config.value.depth) then Err(TreeFull)
    else if Transfer(s.balances, depositor, pool, s.config.value.denomination).None? then Trap
    else Ok
  }

  function WithdrawReply(env: Env, pool: Address, s: State, w: Spend): Reply
    requires s.config.Some? ==> ValidConfig(s.config.value)
  {
    if s.config.None? then Trap
    else
      var c := s.config.value;
      if !KnownRoot(env, c, s.leaves, w.root) then Err(InvalidRoot)
      else if w.nullifierHash in SpentSet(s.spends) then Err(NullifierSpent)
      else if w.fee < 0 || w.fee > c.maxFee then Err(FeeTooHigh)
      else if !env.verify(w.proof, SpendInputs(env, w)) then Err(InvalidProof)
      else if Payout(s.balances, pool, w.recipient, w.relayer, c.denomination, w.fee).None? then Trap
      else Ok
  }

  predicate Configured(s: State) {
    s.config.Some? ==> ValidConfig(s.config.value)
  }

  function ReplyTo(env: Env, pool: Address, s: State, call: Call): Reply
    requires Configured(s)
  {
    match call
    case Initialize(config, authorized) => InitializeReply(s, config, authorized)
    case Deposit(depositor, commitment, authorized) => DepositReply(pool, s, depositor, commitment, authorized)
    case Withdraw(w) => WithdrawReply(env, pool, s, w)
    case TokenTransfer(from, to, amount) =>
      if from == pool || Transfer(s.balances, from, to, amount).None? then Trap else Ok
    case TokenMint(to, amount) =>
      if amount < 0 || Credit(s.balances, to, amount).None? then Trap else Ok
  }

  /** The state after a call: unchanged unless the reply is Ok. */
  function Next(env: Env, pool: Address, s: State, call: Call): (s': State)
    requires Configured(s)
    ensures Configured(s')
  {
    if ReplyTo(env, pool, s, call) != Ok then s
    else match call
      case Initialize(config, _) => s.(config := Some(config))
      case Deposit(depositor, commitment, _) =>
        s.(leaves := s.leaves + [commitment],
           balances := Transfer(s.balances, depositor, pool, s.config.value.denomination).value)
      case Withdraw(w) =>
        s.(spends := s.spends + [w],
           balances := Payout(s.balances, pool, w.recipient, w.relayer, s.config.value.denomination, w.fee).value)
      case TokenTransfer(from, to, amount) => s.(balances := Transfer(s.balances, from, to, amount).value)
      case TokenMint(to, amount) => s.(balances := Credit(s.balances, to, amount).value)
  }

  function Run(env: Env, pool: Address, s: State, calls: seq<Call>): (s': State)
    requires Configured(s)
    ensures Configured(s')
    decreases |calls|
  {
    if |calls| == 0 then s
    else Run(env, pool, Next(env, pool, s, calls[0]), calls[1..])
  }

  /** A pool before `initialize`, whatever the token balances are. */
  predicate Genesis(s: State) {
    s.config.None? && s.leaves == [] && s.spends == []
  }
}

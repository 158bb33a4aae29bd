/**
 The pool contract: entry points that read and overwrite storage and move tokens.
 Each is proved to reply and to change state exactly as the ledger machine says.
 */
module MixerPool {
  import opened Codec
  import opened Counting
  import opened InputCodec
  import opened Ledger
  import opened MerkleSpec
  import opened Numbers
  import opened OnChainMerkle
  import opened PoolStorage
  import opened RootHistory
  import opened TreeHashes
  import opened Wrappers

  class Pool {
    const env: Env
    const address: Address
    const st: Storage
    const token: Token
    ghost var leaves: seq<Bytes32>  // commitments in deposit order
    ghost var spends: seq<Spend>    // accepted withdrawals in order

    /** The abstract state that the storage represents. */
    ghost function Abs(): State
      reads this, st, token
    {
      State(st.config, leaves, spends, token.balances)
    }

    ghost predicate Valid()
      reads this, st, token
    {
      && st.inserted == SetOf(leaves)
      && st.spent == SpentSet(spends)
      && match st.config
         case None => leaves == [] && spends == [] && st.nodes == map[] && st.rootEntries == map[]
         case Some(c) => ValidConfig(c) && TreeRepresents(c) && RingRepresents(c)
    }

    ghost predicate TreeRepresents(c: Config)
      reads this`leaves, st`nextLeafIndex, st`nodes
    {
      && st.nextLeafIndex == |leaves| <= Capacity(c.depth)
      && Stored(st.nodes, BytesHasher(env.h), c.depth, leaves)
    }

    ghost predicate RingRepresents(c: Config)
      requires ValidConfig(c)
      reads this`leaves, st`rootEntries, st`rootHistoryIndex
    {
      HoldsRoots(st, RootLog(env, c.depth, leaves), c.historySize)
    }

    constructor (env: Env, address: Address, token: Token)
      ensures Valid() && this.env == env && this.address == address && this.token == token
      ensures Abs() == State(None, [], [], token.balances)
      ensures fresh(st)
    {
      this.env, this.address, this.token := env, address, token;
      st := new Storage();
      leaves, spends := [], [];
    }

    method Initialize(config: Config, authorized: bool) returns (reply: Reply)
      requires Valid()
      modifies st
      ensures Valid()
      ensures reply == ReplyTo(env, address, old(Abs()), Call.Initialize(config, authorized))
      ensures Abs() == Next(env, address, old(Abs()), Call.Initialize(config, authorized))
    {
      if st.config.Some? { return Err(AlreadyInitialized); }
      if config.denomination <= 0 { return Err(InvalidDenomination); }
      if config.depth == 0 || config.depth > 32 { return Err(InvalidTreeDepth); }
      if config.historySize == 0 { return Err(InvalidRootHistorySize); }
      if !authorized { return Trap; }
      st.config := Some(config);
      st.nextLeafIndex := 0;
      st.rootHistoryIndex := 0;
      EmptyTreeStored(BytesHasher(env.h), config.depth);
      ModOfZero(config.historySize);
      var initialRoot := GetCurrentRoot(BytesHasher(env.h), st, []);
      PushRootHistory(st, initialRoot, []);
      EmptyRootLog(env, config.depth);
      reply := Ok;
    }

    method Deposit(depositor: Address, commitment: Bytes32, authorized: bool) returns (reply: Reply)
      requires Valid()
      modifies this, st, token
      ensures Valid()
      ensures reply == ReplyTo(env, address, old(Abs()), Call.Deposit(depositor, commitment, authorized))
      ensures Abs() == Next(env, address, old(Abs()), Call.Deposit(depositor, commitment, authorized))
    {
      if !authorized || depositor == address { return Trap; }
      if commitment in st.inserted { return Err(DuplicateCommitment); }
      if st.config.None? { return Trap; }
      var nextIndex := st.nextLeafIndex;
      var depth := st.config.value.depth;
      var maxLeaves := MaxLeaves(depth);
      if nextIndex >= maxLeaves { return Err(TreeFull); }
      var paid := token.Move(depositor, address, st.config.value.denomination);
      if !paid { return Trap; }
      Append(commitment);
      reply := Ok;
    }

    /** Records an admitted commitment in the set, the tree and the root history. */
    method Append(commitment: Bytes32)
      requires st.config.Some? && ValidConfig(st.config.value)
      requires TreeRepresents(st.config.value) && RingRepresents(st.config.value)
      requires st.inserted == SetOf(leaves)
      requires |leaves| < Capacity(st.config.value.depth)
      modifies this`leaves, st`inserted, st`nodes, st`nextLeafIndex, st`rootEntries, st`rootHistoryIndex
      ensures leaves == old(leaves) + [commitment]
      ensures TreeRepresents(st.config.value) && RingRepresents(st.config.value)
      ensures st.inserted == SetOf(leaves)
    {
      CapacityBounds(st.config.value.depth);
      SetOfPush(leaves, commitment);
      st.inserted := st.inserted + {commitment};
      InsertAndRecord(BytesHasher(env.h), st, commitment, leaves);
      leaves := leaves + [commitment];
    }

    method Withdraw(
      proof: ProofBytes, root: Bytes32, nullifierHash: Bytes32,
      recipient: Address, relayer: Address, fee: i128) returns (reply: Reply)
      requires Valid()
      modifies this, st, token
      ensures Valid()
      ensures reply == ReplyTo(env, address, old(Abs()),
        Call.Withdraw(Spend(proof, root, nullifierHash, recipient, relayer, fee)))
      ensures Abs() == Next(env, address, old(Abs()),
        Call.Withdraw(Spend(proof, root, nullifierHash, recipient, relayer, fee)))
      ensures unchanged(st`nodes) && unchanged(st`nextLeafIndex) && unchanged(st`inserted)
      ensures unchanged(st`rootEntries) && unchanged(st`rootHistoryIndex)
      ensures old(st.spent) <= st.spent
    {
      ghost var w := Spend(proof, root, nullifierHash, recipient, relayer, fee);
      if st.config.None? { return Trap; }
      var known := IsKnownRoot(st, root, RootLog(env, st.config.value.depth, leaves));
      if !known { return Err(InvalidRoot); }
      if nullifierHash in st.spent { return Err(NullifierSpent); }
      if fee < 0 || fee > st.config.value.maxFee { return Err(FeeTooHigh); }
      var inputs := BuildPublicInputs(env, root, nullifierHash, recipient, relayer, fee);
      var valid := VerifyProof(env, proof, inputs);
      if !valid { return Err(InvalidProof); }
      reply := ExecuteWithdrawal(nullifierHash, recipient, relayer, fee, w);
    }

    /** Marks the nullifier, then pays; a failed transfer rolls everything back. */
    method ExecuteWithdrawal(
      nullifierHash: Bytes32, recipient: Address, relayer: Address, fee: i128, ghost w: Spend) returns (reply: Reply)
      requires st.config.Some? && ValidConfig(st.config.value)
      requires fee >= 0 && w.nullifierHash == nullifierHash
      requires st.spent == SpentSet(spends)
      modifies this`spends, st`spent, token
      ensures st.spent == SpentSet(spends)
      ensures match Payout(old(token.balances), address, recipient, relayer, st.config.value.denomination, fee)
        case None =>
          reply == Trap && token.balances == old(token.balances) && spends == old(spends)
        case Some(after) =>
          reply == Ok && token.balances == after && spends == old(spends) + [w]
    {
      var spentBefore := st.spent;
      st.spent := st.spent + {nullifierHash};
      var paid := Pay(st.config.value.denomination, recipient, relayer, fee);
      if !paid {
        st.spent := spentBefore;
        return Trap;
      }
      SpentSetPush(spends, w);
      spends := spends + [w];
      reply := Ok;
    }

    method Pay(denomination: i128, recipient: Address, relayer: Address, fee: i128) returns (paid: bool)
      requires denomination > 0 && fee >= 0
      modifies token
      ensures match Payout(old(token.balances), address, recipient, relayer, denomination, fee)
        case None => !paid && token.balances == old(token.balances)
        case Some(after) => paid && token.balances == after
    {
      var balancesBefore := token.balances;
      var withdrawalAmount: i128 := denomination - fee;
      paid := token.Move(address, recipient, withdrawalAmount);
      if paid && fee > 0 {
        paid := token.Move(address, relayer, fee);
      }
      if !paid {
        token.balances := balancesBefore;
      }
    }

    // ------------------------------------------------------------- queries

    /** Absent before initialization, where the source traps. */
    method CurrentRoot() returns (root: Option<Bytes32>)
      requires Valid()
      ensures root == match st.config
        case None => None
        case Some(c) => Some(Root(BytesHasher(env.h), c.depth, leaves))
    {
      if st.config.None? { return None; }
      var r := GetCurrentRoot(BytesHasher(env.h), st, leaves);
      root := Some(r);
    }

    method GetHistory() returns (history: Option<seq<Bytes32>>)
      requires Valid()
      ensures history == match st.config
        case None => None
        case Some(c) => Some(RingSlots(RootLog(env, c.depth, leaves), c.historySize))
    {
      if st.config.None? { return None; }
      var slots := GetRootHistory(st, RootLog(env, st.config.value.depth, leaves));
      history := Some(slots);
    }

    method IsNullifierSpent(nullifierHash: Bytes32) returns (spent: bool)
      requires Valid()
      ensures spent <==> exists s :: s in spends && s.nullifierHash == nullifierHash
    {
      spent := nullifierHash in st.spent;
    }
  }

  /** Inserts a leaf and pushes the new root. */
  method InsertAndRecord(H: Hasher<Bytes32>, st: Storage, commitment: Bytes32, ghost leaves: seq<Bytes32>)
    requires st.config.Some? && ValidConfig(st.config.value)
    requires st.nextLeafIndex == |leaves| < U32_MAX && |leaves| < Pow2(st.config.value.depth)
    requires Stored(st.nodes, H, st.config.value.depth, leaves)
    requires HoldsRoots(st, Roots(H, st.config.value.depth, leaves), st.config.value.historySize)
    modifies st`nodes, st`nextLeafIndex, st`rootEntries, st`rootHistoryIndex
    ensures st.nextLeafIndex == |leaves| + 1
    ensures Stored(st.nodes, H, st.config.value.depth, leaves + [commitment])
    ensures HoldsRoots(st, Roots(H, st.config.value.depth, leaves + [commitment]), st.config.value.historySize)
  {
    var newRoot, _ := InsertLeaf(H, st, commitment, leaves);
    PushRootHistory(st, newRoot, Roots(H, st.config.value.depth, leaves));
    RootsAppend(H, st.config.value.depth, leaves, commitment);
  }

  /** `1u32.checked_shl(depth)`, saturated when the shift leaves the type. */
  method MaxLeaves(depth: u32) returns (max: u32)
    ensures max == Capacity(depth)
  {
    if depth >= 32 { return U32_MAX; }
    CapacityBounds(depth);
    max := Pow2(depth);
  }

  lemma EmptyTreeStored(H: Hasher<Bytes32>, depth: nat)
    ensures Stored(map[], H, depth, [])
  {
    forall l: nat
      ensures LayerSize(0, l) == 0
    {
      LayerSizeIsCeiling(0, l, 0);
    }
  }

  lemma EmptyRootLog(env: Env, depth: nat)
    ensures RootLog(env, depth, []) == [] + [Root(BytesHasher(env.h), depth, [])]
  {
    var none: seq<Bytes32> := [];
    assert none[..0] == none;
  }

  lemma ModOfZero(size: nat)
    requires size > 0
    ensures 0 % size == 0
  {
    DivModUnique(size, 0, 0);
  }
}

# Caligo: a verified model of the mixer protocol

Caligo is a fixed-denomination mixer on Stellar. A deposit appends a commitment
`Poseidon(secret, nullifier)` to a Merkle tree kept by a Soroban contract; a
withdrawal presents a zero-knowledge proof that some leaf of a recent tree opens
to a secret and a nullifier, and reveals only the nullifier's hash. Three trees
must agree for this to work: the contract's sparse incremental tree, the
indexer's and the client's rebuilt trees, and the path fold inside the circuit.

The project models these parts and proves what they promise one another:

- `MerkleSpec`, `MerkleBinding`, `TreeHashes`: one zero-padded tree, generic in its
  node type, with its instances over byte strings, field elements and integers.
- `OnChainMerkle`, `RootHistory`, `PoolStorage`, `MixerPool`: the contract as
  classes over keyed storage. `DenseTree`, `Indexer`: the rebuilt trees.
- `Circuit`: the constraint systems, as field equations over intermediate signals.
- `Ledger`, `LedgerRuns`, `PoolHistory`, `Backing`, `SingleWithdrawal`, `Acceptance`,
  `FullCycle`, `TwinDeposits`: the pool as a state machine over whole calls, and what
  holds over every run of it.
- `Codec`, `Field`, `InputCodec`: byte and field codecs and the public inputs.
- `WorkerProver`, `WorkerHistory`, `RelayerRegistry`, `RegistryHistory`: the client's
  request machine and the registry.
- `Numbers`, `Counting`, `Searching`, `Wrappers`: arithmetic and small helpers.

How things are represented:

- Poseidon is a pair of arbitrary functions `h1`, `h2` on the field. Nothing is
  assumed about them. A result that needs collision resistance is stated as: either
  the property holds, or a function computed from the run (`PathCollision`,
  `TreeCollision`, `Audit.Search`, `ExpiryCollision`) returns a concrete pair of
  different inputs with one hash, or an opening of the empty leaf. `Genuine` checks it.
  `Audit.NullifierSearch` does the same for the one-input hash of nullifiers, and
  `Collides` checks that; it is used only where equal nullifier hashes must mean equal
  nullifiers.
- SHA-256 and the pairing check are arbitrary functions too. `KnowledgeSound` says
  that a given extractor turns every accepted proof into a witness; `Complete` says
  that a given prover convinces the verifier of every satisfiable statement.
- The field order is the BN254 constant; that it is prime is the hypothesis
  `IsPrime(P)` where it is needed.
- Storage keys and set membership compare 32-byte strings, hashing and verification
  compare residues. A call that returns an error or traps changes nothing.
- `u32` and `i128` are subset types, so that each verified assignment is also the
  proof that the arithmetic stays in range.
- The circuit's depth parameter is the pool's tree depth.

Each method of `MixerPool.Pool` is proved to reply and to change the abstract state
exactly as `Ledger.ReplyTo` and `Ledger.Next` say; the theorems about whole runs are
about those functions. `PoolHistory`, `WorkerHistory` and `RegistryHistory` tell the same
replies and outcomes once more, from the calls or events of a run and with all limits
written out, and prove that the machines give them.

## Where the code and its documentation differ

- README.md:29 says nullifier tracking prevents any deposit from being withdrawn
  twice. The spent set compares bytes (contracts/mixer_pool/src/storage.rs:161-166)
  while the verifier reduces the hash modulo the field order
  (contracts/mixer_pool/src/verifier.rs:183-189). A run whose accepted
  hashes are pairwise different mod p keeps the promise, and where the withdrawn
  deposits have different nullifiers no other run does, or two nullifiers with one hash
  are computed (`SingleWithdrawal.WithdrawnOnceIff`). Per call the guard is a fresh
  residue (`SingleWithdrawal.AcceptedOnceIff`), that is, none of at most six byte keys
  spent (`SingleWithdrawal.ResidueFreshIff`); canonical hashes always meet it
  (`SingleWithdrawal.CanonicalIsIncongruent`). Without the guard it is false: the other
  encoding of an accepted hash, for a canonical one that of the number plus p, withdraws
  the same deposit again (`SingleWithdrawal.DepositWithdrawnTwice`, for every run;
  `Acceptance.HonestWithdrawalRepeats`, from an honest note). The worst case is six
  withdrawals of one deposit (`SingleWithdrawal.ShortfallIsBounded`).
- contracts/mixer_pool/src/lib.rs:73 says the duplicate check prevents commitment
  replay. It compares bytes too: another encoding of a deposited commitment is accepted
  (`TwinDeposits.CommitmentReplayed`, for every run). An accepted deposit keeps the
  leaves different mod p if and only if none of its commitment's encodings is an
  inserted key (`TwinDeposits.AcceptedDepositIff`).
- contracts/mixer_pool/src/errors.rs:13 speaks of all 2^depth leaves; at depth 32
  the shift saturates and the last leaf does not fit (`Ledger.CapacityBounds`).
- contracts/mixer_pool/src/lib.rs:154-155 and 227-228 describe addresses as raw
  padded bytes; the code hashes the strkey with SHA-256, and so does the model.

## Model

| member | source | states |
|---|---|---|
| MerkleSpec.LayerSizeIsCeiling | indexer/src/merkle.rs:132 | level l of a tree with n leaves has exactly ceil(n / 2^l) non-empty nodes |
| MerkleSpec.AppendIsLocal | contracts/mixer_pool/src/merkle.rs:64-82 | inserting leaf n leaves the hash of every node other than (l, n div 2^l) unchanged |
| MerkleSpec.PathSibling | contracts/mixer_pool/src/merkle.rs:65-75 | on the insertion path a left child's right sibling is an empty subtree and a right child's left sibling is occupied; neither changes |
| MerkleSpec.ProofComplete | indexer/src/merkle.rs:74-106 | for every tree and inserted index within capacity the path folds to the root, has depth entries, carries the index, and its bits are the index's binary digits |
| MerkleSpec.RootsAppend | indexer/src/state.rs:71-79 | the chronological list of roots grows by the root of the longer history and keeps the others |
| MerkleBinding.OpeningsBind | circuits/merkle.circom:20-39 | two openings of one root along the same directions are the same opening, or the computed pair is a collision |
| MerkleBinding.PathBinds | circuits/merkle.circom:20-39 | an opening of a known tree's node opens the leaf its directions spell, or the computed pair is a collision |
| MerkleBinding.TreesBind | contracts/mixer_pool/src/merkle.rs:64-82 | trees that agree on an ancestor of a leaf agree on the leaf, or the computed pair is a collision |
| MerkleBinding.LaterRootsDiffer | contracts/mixer_pool/src/merkle.rs:53-88 | the root before a non-empty leaf is inserted differs from all later ones, or the computed pair is a collision |
| DenseTree.MerkleTree.constructor | indexer/src/merkle.rs:36-53 | a new tree has no leaves, the zero hash of every level, and empty layers |
| DenseTree.MerkleTree.Insert | indexer/src/merkle.rs:56-62 | appends the leaf, returns its index, and leaves every layer equal to the spec tree's non-empty nodes |
| DenseTree.MerkleTree.Rebuild | indexer/src/merkle.rs:130-147 | rebuilding from any leaves yields exactly the spec tree's layers |
| DenseTree.MerkleTree.GetRoot | client/src/crypto/merkle.ts:64-69 | the reported root is the spec root, for the empty tree too |
| DenseTree.MerkleTree.Proof | client/src/crypto/merkle.ts:72-98 | answers with the siblings and directions of the index, and with nothing beyond the last leaf |
| DenseTree.MerkleTree.FindCommitment | indexer/src/merkle.rs:126-128 | the first position of the commitment, or none if it is absent |
| TreeHashes.RootIsCanonical | contracts/mixer_pool/src/poseidon.rs:64-69 | every stored root encodes a number below the field order |
| TreeHashes.RootOnField | contracts/mixer_pool/src/poseidon.rs:64-78 | the contract's byte root denotes the root of the same tree over the field, non-canonical leaves included |
| TreeHashes.FieldFold | circuits/merkle.circom:24-39 | folding a byte path and reducing is folding the reduced path in the field |
| TreeHashes.ClientRootIsChainRoot | client/src/crypto/merkle.ts:105-116 | for the same deposits mod p the client's root encodes to the contract's 32 bytes, empty history included |
| TreeHashes.ClientPathIsIndexerPath | client/src/crypto/merkle.ts:72-98 | client and indexer return the same directions and siblings that are equal mod p |
| OnChainMerkle.InsertLeaf | contracts/mixer_pool/src/merkle.rs:53-88 | the node map gains exactly the entries of the tree with one more leaf, each the spec hash; returns the spec root; counts its hash calls |
| OnChainMerkle.SiblingStored | contracts/mixer_pool/src/merkle.rs:65-75 | the zero-hash fallback is taken exactly at the levels where the path node is a left child |
| OnChainMerkle.ZeroHash | contracts/mixer_pool/src/merkle.rs:24-34 | the recursion returns the level's zero hash after level + 1 Poseidon calls |
| OnChainMerkle.NodeOrZeroHash | contracts/mixer_pool/src/merkle.rs:67-73 | the stored node, or the zero hash of the level at a cost of level + 1 hashes |
| OnChainMerkle.HashWithSibling | contracts/mixer_pool/src/merkle.rs:65-77 | the hash of the path node and its sibling is the new tree's parent |
| OnChainMerkle.StoreParent | contracts/mixer_pool/src/merkle.rs:77-81 | one turn of the loop brings one more level of the map up to date |
| OnChainMerkle.GetCurrentRoot | contracts/mixer_pool/src/merkle.rs:94-97 | the spec root, stored or recomputed from zero hashes |
| OnChainMerkle.InsertCostByBits | contracts/mixer_pool/src/merkle.rs:24-34 | one insertion costs depth hashes plus l + 1 for every zero bit l of the leaf index below depth |
| OnChainMerkle.InsertCostBound | contracts/mixer_pool/src/merkle.rs:64-82 | that is at most depth + depth(depth+1)/2, and within capacity only the first deposit attains it |
| Indexer.SparseIsDense | indexer/src/merkle.rs:130-147 | for the same deposits the contract's map and the rebuilt layers have the same entries node by node |
| Indexer.AppState.constructor | indexer/src/state.rs:50-65 | starts synchronized with the single root of the empty tree |
| Indexer.AppState.InsertCommitment | indexer/src/state.rs:71-95 | appends the leaf and one list entry carrying the new root and its deposit count; keeps a synchronized list synchronized |
| Indexer.AppState.Restore | indexer/src/main.rs:69-74 | a restore refills the tree but not the list; every entry still is the root of as many leaves as it says |
| Indexer.AppState.SyncedListIsRootLog | indexer/src/state.rs:50-65 | a synchronized list is the sequence of roots the pool has pushed |
| RootHistory.PushSlots | contracts/mixer_pool/src/lib.rs:292-300 | a push overwrites exactly the slot at the write index of a ring that is a rotation of the window |
| RootHistory.SlotOfRoot | contracts/mixer_pool/src/lib.rs:292-300 | slot m mod size holds root number m for every root of the window |
| RootHistory.PushRootHistory | contracts/mixer_pool/src/lib.rs:292-300 | after k pushes the write index is k mod size and the slots hold the last min(k, size) roots |
| RootHistory.IsKnownRoot | contracts/mixer_pool/src/lib.rs:303-313 | true exactly for the roots of the window |
| RootHistory.GetRootHistory | contracts/mixer_pool/src/lib.rs:179-188 | returns the window turned by the write index |
| Circuit.BinaryConstraint | circuits/merkle.circom:26 | over a prime field the binary constraint holds exactly for 0 and 1 |
| Circuit.CircuitMeaning | circuits/withdraw.circom:32-53 | the equations are satisfiable for given inputs exactly when the directions are bits, the nullifier hash matches, and the commitment hashes up the path to the root |
| Circuit.OpensSatisfies | circuits/merkle.circom:24-39 | an honest assignment meets every constraint, over any modulus |
| Codec.BytesToBigInt | client/src/crypto/poseidon.ts:61-67 | the big-endian value of the bytes |
| Codec.BigIntToBytes | client/src/crypto/poseidon.ts:72-80 | the 32 low-order big-endian bytes, for every integer |
| Codec.FromBEToBEMod | client/src/crypto/poseidon.ts:72-80 | encoding keeps exactly the residue modulo 256^k, for negative and oversized integers too |
| Codec.FromBEToBE | client/src/crypto/poseidon.ts:61-80 | decoding inverts encoding below 256^k |
| Codec.ToBEFromBE | client/src/crypto/poseidon.ts:61-80 | encoding inverts decoding for every byte string |
| Codec.WriteFieldElement | client/src/proof/prover.ts:130-136 | overwrites exactly 32 bytes at the offset with the value's encoding |
| Codec.EncodeProofForContract | client/src/proof/prover.ts:108-127 | each of the eight coordinates fills its 32 bytes of the 256: the second element of a B pair the lower ones |
| Codec.ProofLayout | client/src/proof/prover.ts:108-127 | the byte offset of every coordinate in an encoded proof |
| Codec.DecodeEncoded | contracts/mixer_pool/src/verifier.rs:87-106 | the verifier's slices of an encoded proof are the eight coordinates, each second element of a B pair first |
| Field.FieldOrder | client/src/crypto/secrets.ts:12-13 | p is the BN polynomial of the scalar field at the curve's parameter |
| Field.BytesToFr | contracts/mixer_pool/src/poseidon.rs:20-25 | the reversed little-endian read is the big-endian number mod p |
| Field.EncodeFr | contracts/mixer_pool/src/poseidon.rs:30-39 | the back-to-front copy yields the big-endian encoding |
| Field.FrRoundTrip | contracts/mixer_pool/src/poseidon.rs:20-39 | decoding an encoded field element gives it back |
| Field.CanonicalIff | contracts/mixer_pool/src/poseidon.rs:20-39 | encoding a decoded string gives it back exactly when it denotes a number below p |
| Field.CanonicalInjective | contracts/mixer_pool/src/storage.rs:161-166 | canonical byte strings are equal exactly when their residues are |
| Field.EncodingsIff | contracts/mixer_pool/src/poseidon.rs:20-25 | the 32-byte strings with a given residue are the at most six listed ones |
| Field.AliasExists | contracts/mixer_pool/src/poseidon.rs:20-25 | every 32-byte string has another with its residue |
| InputCodec.AddressToFieldBytes | contracts/mixer_pool/src/lib.rs:248-262 | the hash of the whole address up to 56 characters, of the first 56 of a longer one |
| InputCodec.VerifyProof | contracts/mixer_pool/src/verifier.rs:167-211 | the pairing check is asked about the inputs reduced mod p, in order |
| InputCodec.FeeBytesAgree | client/src/sdk/mixer.ts:153 | contract and client encode a non-negative fee identically |
| InputCodec.FeeScalar | contracts/mixer_pool/src/lib.rs:232-236 | the verifier's scalar of a non-negative fee is the fee |
| InputCodec.ScalarsInOrder | contracts/mixer_pool/src/lib.rs:212-238 | the verifier's five scalars are root, nullifier hash, the hashes of the whole recipient and relayer addresses, and the fee, in this order |
| InputCodec.InputsAgree | client/src/sdk/mixer.ts:147-154 | contract bytes, client bytes and prover signals are the same five scalars; the byte vectors are equal exactly when both address hashes are canonical |
| PoolStorage.Token.Move | contracts/mixer_pool/src/lib.rs:97-98 | moves the amount, or traps on a negative amount, an overdraft or an overflow and changes nothing |
| MixerPool.Pool.Initialize | contracts/mixer_pool/src/lib.rs:24-64 | replies and changes state as the ledger machine; storage then represents the empty tree and the ring with its root |
| MixerPool.Pool.Append | contracts/mixer_pool/src/lib.rs:100-105 | set, tree and ring represent one more deposit |
| MixerPool.InsertAndRecord | contracts/mixer_pool/src/lib.rs:103-105 | the new leaf is in the tree and the new root is the last one in the ring |
| MixerPool.Pool.Deposit | contracts/mixer_pool/src/lib.rs:77-111 | replies and changes state as the ledger machine: each error in order, else exact payment, one more leaf and one more root |
| MixerPool.Pool.Withdraw | contracts/mixer_pool/src/lib.rs:126-169 | replies and changes state as the ledger machine and leaves tree, ring and commitment set unchanged |
| MixerPool.Pool.ExecuteWithdrawal | contracts/mixer_pool/src/lib.rs:265-289 | spends the nullifier and pays both parties, or rolls both back when a transfer fails |
| MixerPool.Pool.Pay | contracts/mixer_pool/src/lib.rs:275-283 | both transfers happen or neither does |
| MixerPool.Pool.GetHistory | contracts/mixer_pool/src/lib.rs:179-188 | the ring's slots for the pool's whole deposit history |
| MixerPool.Pool.CurrentRoot | contracts/mixer_pool/src/lib.rs:174-176 | the spec root of all deposits |
| MixerPool.Pool.IsNullifierSpent | contracts/mixer_pool/src/lib.rs:191-193 | true exactly for the hashes of accepted withdrawals |
| LedgerRuns.RunAppends | contracts/mixer_pool/src/lib.rs:77-169 | every run only appends its accepted deposits and withdrawals; withdrawals never touch the leaves; the configuration is final |
| LedgerRuns.RunKeepsInv | contracts/mixer_pool/src/lib.rs:77-169 | every call keeps leaves and nullifier hashes distinct, the capacity, and each withdrawal's root among the roots pushed |
| Ledger.ScalarsBind | contracts/mixer_pool/src/lib.rs:124-125 | withdrawals with the same scalars have the same fee, root and nullifier residues, and the same payees or addresses whose hashes collide mod p |
| Ledger.CapacityBounds | contracts/mixer_pool/src/lib.rs:90 | the capacity is 2^depth exactly below depth 32, and one less there |
| LedgerRuns.DepositBookkeeping | contracts/mixer_pool/src/lib.rs:84-105 | over every run the leaves are the accepted deposits, pairwise distinct, as many as the inserted set, within the saturated capacity |
| LedgerRuns.SingleSpend | contracts/mixer_pool/src/lib.rs:140-143 | over every run no 32-byte nullifier hash is accepted twice and the spent set has one member per accepted withdrawal |
| PoolHistory.ConfigurationIsFirst | contracts/mixer_pool/src/lib.rs:33-61 | over every run the configuration is exactly the argument of the first authorized initialization with valid arguments |
| PoolHistory.InitializeReplies | contracts/mixer_pool/src/lib.rs:33-63 | after every run: already initialized, or the first invalid argument's own error, or an empty pool with exactly the caller's arguments |
| PoolHistory.TransferIff | contracts/mixer_pool/src/lib.rs:97-98 | a transfer happens exactly for a covered non-negative amount that the receiver can hold in 127 bits |
| PoolHistory.PayoutIff | contracts/mixer_pool/src/lib.rs:275-283 | the two transfers of a withdrawal both happen exactly if the fee is within the denomination, the pool holds what it pays out and the payees can take their shares, the pool as payee included |
| PoolHistory.DepositReplies | contracts/mixer_pool/src/lib.rs:77-111 | after every run: a commitment deposited before is a duplicate, a new one finds the tree full at 2^depth leaves (2^32 - 1 at depth 32), or is appended for one denomination of a depositor who can pay; a refused one changes nothing |
| PoolHistory.DepositsAcceptedIff | contracts/mixer_pool/src/lib.rs:84-105 | a list of deposits of any depositors is accepted in full and in order if and only if the commitments are new and fit and each depositor can pay for all of theirs; the exact balances afterwards |
| PoolHistory.ReachablePoolAccepts | contracts/mixer_pool/src/lib.rs:84-105 | the same after every run from deployment |
| PoolHistory.FreshPoolAccepts | contracts/mixer_pool/src/lib.rs:24-111 | from deployment, a funded depositor's list of commitments is accepted exactly if it has no repetition and fits 2^depth, or 2^32 - 1 at depth 32 |
| PoolHistory.WithdrawReplies | contracts/mixer_pool/src/lib.rs:126-169 | after every run: a root that is none of the last ones, an accepted hash, a fee out of bounds and a rejected proof get their own errors in this order; otherwise the two payees get their shares and nobody else, if the pool can pay |
| LedgerRuns.PayoutMoves | contracts/mixer_pool/src/lib.rs:275-283 | the recipient gains the denomination less the fee, the relayer the fee, the pool loses the denomination, nobody else is touched |
| LedgerRuns.CallsMoveTokens | contracts/mixer_pool/src/lib.rs:95-98 | the exact balance change of every account in an accepted deposit or withdrawal |
| LedgerRuns.RunConserves | contracts/mixer_pool/src/lib.rs:265-289 | over every run the balance changes by one denomination per unmatched deposit plus exactly what the pool received otherwise |
| LedgerRuns.QuietReceivesNothing | contracts/mixer_pool/src/lib.rs:278-283 | without gifts, mints or withdrawals to itself the pool receives nothing besides deposits |
| LedgerRuns.Solvency | contracts/mixer_pool/src/lib.rs:95-98 | from deployment the balance covers deposits minus withdrawals, with equality when nobody else pays the pool |
| Backing.SpendBacked | circuits/withdraw.circom:32-53 | an accepted withdrawal opens a deposited leaf and reveals its nullifier's hash, or a coincidence is computed |
| Backing.RunOpens | contracts/mixer_pool/src/lib.rs:135-165 | with a sound verifier every accepted withdrawal of a run opens a root that was pushed |
| Backing.SearchSound | circuits/withdraw.circom:32-53 | the search returns a genuine coincidence, or all withdrawals are backed and separate |
| Backing.NullifierSearchSound | circuits/withdraw.circom:37-42 | among backed withdrawals equal nullifier residues mean equal nullifiers, or a collision of the one-input hash is computed |
| Backing.WithdrawalsAreBacked | contracts/mixer_pool/src/lib.rs:126-169 | over every run all withdrawals are backed, different nullifiers open different deposits, and there are at most as many nullifiers as deposits, or a coincidence is computed |
| SingleWithdrawal.IncongruentIff | contracts/mixer_pool/src/storage.rs:161-166 | backed withdrawals with pairwise incongruent hashes open different deposits under different nullifiers, and conversely, or two different nullifiers with one hash are computed |
| SingleWithdrawal.OneMoreWithdrawalIff | contracts/mixer_pool/src/lib.rs:141-143 | one more withdrawal, with any proof and payees, repeats no deposit if its residue is fresh, and only if where the deposits' nullifiers differ, or two different nullifiers with one hash are computed |
| SingleWithdrawal.ResidueFreshIff | contracts/mixer_pool/src/storage.rs:155-166 | a residue is fresh exactly when none of the hash's encodings is a spent key |
| SingleWithdrawal.CanonicalIsIncongruent | contracts/mixer_pool/src/storage.rs:161-166 | canonical hashes that differ as bytes are pairwise different mod p |
| SingleWithdrawal.WithdrawnOnceIff | contracts/mixer_pool/src/lib.rs:126-169 | over every run, incongruent hashes mean that no deposit was withdrawn twice, and where the witnesses' nullifiers differ between deposits the two are equivalent, or a coincidence or a pair of nullifiers with one hash is computed |
| SingleWithdrawal.AcceptsAfterIff | contracts/mixer_pool/src/lib.rs:167-168 | a withdrawal is logged exactly when its call succeeds |
| SingleWithdrawal.AcceptedOnceIff | contracts/mixer_pool/src/lib.rs:141-143 | in every reachable state, the residue check that an accepted call would have needed: sufficient, and necessary where the deposits' nullifiers differ, or a coincidence or a pair of nullifiers with one hash is computed |
| SingleWithdrawal.NoRepeatsIff | contracts/mixer_pool/src/lib.rs:265-289 | repeated withdrawals number zero exactly when every deposit is withdrawn at most once |
| SingleWithdrawal.UnspentCount | contracts/mixer_pool/src/lib.rs:265-289 | unspent deposits less repeated withdrawals are deposits less withdrawals |
| SingleWithdrawal.RunAccounted | contracts/mixer_pool/src/lib.rs:265-289 | over every run, with no condition on encodings, the exact balance: what was there and received, a denomination per unspent deposit, less one per repeated withdrawal, or a coincidence is computed |
| SingleWithdrawal.UnspentDepositsAreFunded | contracts/mixer_pool/src/lib.rs:265-289 | the pool holds a denomination for each unspent deposit if no deposit was withdrawn twice, and only if when it was paid by deposits alone, or a coincidence is computed |
| SingleWithdrawal.AtMostSixOfOne | contracts/mixer_pool/src/storage.rs:155-166 | the accepted hashes that open one deposit are at most six |
| SingleWithdrawal.RepeatsBound | contracts/mixer_pool/src/lib.rs:126-169 | repeated withdrawals are at most five per opened deposit |
| SingleWithdrawal.ShortfallIsBounded | contracts/mixer_pool/src/lib.rs:265-289 | over every run no deposit is withdrawn more than six times, and the balance falls short of the unspent deposits by at most five denominations per opened one, or a coincidence is computed |
| SingleWithdrawal.CongruentReuse | contracts/mixer_pool/src/verifier.rs:183-189 | any withdrawal is payable under all encodings of its nullifier hash or none, and each is refused as spent exactly when those bytes were accepted |
| SingleWithdrawal.PayableAgain | contracts/mixer_pool/src/lib.rs:265-289 | after a withdrawal with two denominations outstanding the pool can pay it once more |
| SingleWithdrawal.DepositWithdrawnTwice | contracts/mixer_pool/src/lib.rs:126-169 | from deployment on, an accepted withdrawal followed by another encoding of its hash leaves two withdrawals of one deposit in the log; the accepted hashes are congruent afterwards in every case |
| Acceptance.IndexerPathSatisfies | indexer/src/merkle.rs:74-106 | the indexer's path for a deposited note satisfies the circuit for the client's inputs |
| Acceptance.HonestSpendVerifies | client/src/sdk/mixer.ts:129-162 | the call the client builds carries the indexer's root and a proof the contract's verifier accepts |
| Acceptance.KnownWhileInWindow | contracts/mixer_pool/src/lib.rs:303-313 | a root stays known while fewer later deposits than the history size were accepted |
| Acceptance.RootsDiffer | contracts/mixer_pool/src/merkle.rs:53-88 | roots after different numbers of deposits differ as bytes, or a collision is computed |
| Acceptance.ExactExpiry | contracts/mixer_pool/src/lib.rs:303-313 | a root is known exactly until the size-th later deposit, or a collision is computed |
| Acceptance.HonestWithdrawalAccepted | contracts/mixer_pool/src/lib.rs:126-169 | a withdrawal with the indexer's answer is refused only for a spent nullifier, an excessive fee or a failing transfer, whatever calls come in between |
| Acceptance.HonestWithdrawalPaid | contracts/mixer_pool/src/lib.rs:265-289 | while deposits exceed withdrawals such a withdrawal is accepted unless its nullifier hash was spent, and pays recipient and relayer their shares |
| Acceptance.UnopenedDepositIsPaid | README.md:76-94 | with a sound and complete proof system the honest owner of an unopened deposit is paid if no deposit was withdrawn twice, and even while repeated withdrawals are fewer than unspent deposits; a spent hash then means another deposit was opened with the same nullifier, or with one that collides with it; or a coincidence is computed |
| Acceptance.HonestWithdrawalRepeats | contracts/mixer_pool/src/lib.rs:126-169 | an honest note's withdrawal with room for two is such a double withdrawal |
| FullCycle.EveryoneIsPaid | README.md:76-94 | in every reachable pool the owners of any unmatched deposits withdraw one after the other, in any order: every call is accepted, with the exact balances of all accounts |
| FullCycle.FillAndEmpty | README.md:76-94 | from deployment, a pool filled by acceptable deposits is emptied by their owners and ends with the balance it began with |
| TwinDeposits.CanonicalLeavesDiffer | contracts/mixer_pool/src/lib.rs:84-86 | over every run canonical commitments are pairwise different mod p |
| TwinDeposits.DepositsAfterIff | contracts/mixer_pool/src/lib.rs:100-110 | a leaf is appended exactly when its call succeeds |
| TwinDeposits.AcceptedDepositIff | contracts/mixer_pool/src/lib.rs:84-86 | in every reachable state an accepted deposit keeps the leaves different mod p exactly when no encoding of its commitment is an inserted key |
| TwinDeposits.CommitmentReplayed | contracts/mixer_pool/src/lib.rs:84-111 | after every run a deposited commitment is accepted again under another encoding unless that one is a leaf already; two leaves are congruent either way |
| TwinDeposits.TwinsShareOneWithdrawal | contracts/mixer_pool/src/lib.rs:140-143 | a note for one of two congruent leaves opens both; once the client's withdrawal of one is accepted that of the other fails as spent, while a payable one under an unspent encoding still succeeds |
| WorkerProver.Prover.GenerateInWorker | client/src/proof/worker-prover.ts:122-154 | issues a fresh id, makes sure a worker exists, arms the timer, registers the request as pending and posts it |
| WorkerProver.Prover.RejectAllPending | client/src/proof/worker-prover.ts:86-89 | settles every pending request in insertion order and empties the map |
| WorkerProver.Prover.OnMessage | client/src/proof/worker-prover.ts:98-109 | settles the named pending request and disarms its timer; ignores anything else |
| WorkerProver.Prover.OnError | client/src/proof/worker-prover.ts:111-117 | rejects all pending requests in insertion order |
| WorkerProver.Prover.OnTimeout | client/src/proof/worker-prover.ts:132-135 | rejects the request whose timer fires |
| WorkerProver.Prover.Terminate | client/src/proof/worker-prover.ts:80-90 | drops the worker and rejects all pending requests |
| WorkerProver.SettlesOnce | client/src/proof/worker-prover.ts:80-154 | in every interleaving each request was posted once, pending requests are the issued ones not yet settled, each has an armed timer, and none settles twice |
| WorkerProver.RunKeepsInv | client/src/proof/worker-prover.ts:80-154 | every sequence of events keeps the partition into pending and settled requests, and settlements are final |
| WorkerProver.LateReplyIsIgnored | client/src/proof/worker-prover.ts:98-109 | a late or duplicate reply or timeout changes nothing, and no reply settles another request |
| WorkerHistory.EventSettles | client/src/proof/worker-prover.ts:80-135 | an event settles exactly the pending requests it concerns, in order of issue and each with its verdict, and leaves the others pending |
| WorkerHistory.Outcomes | client/src/proof/worker-prover.ts:98-135 | a reply with a proof resolves the named request with it, one without rejects it, a timer times it out, an error or a termination rejects everything pending |
| WorkerHistory.FateOfRequest | client/src/proof/worker-prover.ts:80-154 | over every run a request is pending exactly while no later event concerned it; otherwise its one settlement is the verdict of the first that did |
| WorkerHistory.WorkerExistsIff | client/src/proof/worker-prover.ts:80-97 | a worker exists exactly if a request came after the last termination |
| RelayerRegistry.Registry.Initialize | contracts/relayer_registry/src/lib.rs:32-45 | once; sets the admin and the cap |
| RelayerRegistry.Registry.Register | contracts/relayer_registry/src/lib.rs:51-87 | each error in order, else the record, and a new slot only for a new address |
| RelayerRegistry.Registry.Deactivate | contracts/relayer_registry/src/lib.rs:90-107 | by the relayer or the admin only; clears the active flag and nothing else |
| RelayerRegistry.Registry.Reactivate | contracts/relayer_registry/src/lib.rs:110-122 | sets the active flag of an existing record and nothing else |
| RelayerRegistry.Registry.SetMaxFee | contracts/relayer_registry/src/lib.rs:125-135 | by the admin only; changes the cap and no record |
| RelayerRegistry.Registry.GetActiveRelayers | contracts/relayer_registry/src/lib.rs:145-160 | the active records in slot order |
| RelayerRegistry.ActiveListing | contracts/relayer_registry/src/lib.rs:145-160 | for any index without repetitions the listing has each active record once, no other, in index order |
| RelayerRegistry.RegistryOverRuns | contracts/relayer_registry/src/lib.rs:51-160 | over every run each address has one slot, the listing shows every active relayer once in order of first registration, and each fee is within the cap of that relayer's last registration |
| RegistryHistory.RecordsOverRuns | contracts/relayer_registry/src/lib.rs:51-122 | over every run a record exists exactly after a successful registration, carries the endpoint and the fee of the last one, and is active unless the last successful call about it deactivated it |
| RegistryHistory.SettingsOverRuns | contracts/relayer_registry/src/lib.rs:32-45 | over every run the admin is that of the initialization and the cap the one last set |
| RegistryHistory.RegistryReplies | contracts/relayer_registry/src/lib.rs:32-135 | the reply to every call after every run, each error and who may do what included |
| RegistryHistory.ListedIff | contracts/relayer_registry/src/lib.rs:145-160 | over every run the listing shows exactly the records that the history makes out as active |
| RegistryHistory.RegistrationLists | contracts/relayer_registry/src/lib.rs:51-87 | after an accepted registration the relayer is listed with exactly its endpoint and fee, and no other listing changes |
| RegistryHistory.DeactivationDelists | contracts/relayer_registry/src/lib.rs:90-107 | a deactivated relayer is not listed, and no other listing changes |
| RegistryHistory.ReactivationLists | contracts/relayer_registry/src/lib.rs:110-122 | a reactivated relayer is listed with its stored record, and no other listing changes |

## Left out

- Pairings, curve membership, the verification key and its exporter: `verify` is an arbitrary function of the proof bytes and the five scalars.
- Poseidon's and SHA-256's internals (section 6.2 of FIPS 180-4): arbitrary functions. circomlibjs is not part of this model; the client's Poseidon is taken to reduce its inputs mod p.
- Codec.DecodeEncoded: states byte positions only, not which component of a B coordinate snarkjs calls c0.
- InputCodec.AddressToFieldBytes: truncates longer strings as the visible code does; whether the host's string copy would trap on them is not part of this model.
- InputCodec.InputsAgree: addresses of up to 56 characters, which is every strkey; for longer strings the Soroban string copy is not part of this model.
- DenseTree.MerkleTree.Insert: the index is a natural number; the indexer's cast to u32 beyond 2^32 leaves is not modelled.
- DenseTree.MerkleTree.Proof: indices are natural numbers; the client's behaviour for a negative index is not modelled.
- Indexer listener, REST API, hex encoding and database: I/O. Deposit events are taken to reach the mirror once each and in order.
- WorkerProver.Prover.GenerateInWorker: a constructor or postMessage that throws, and the main-thread fallback, are not modelled, nor is a message's payload; its id is a number or none of ours.
- Authorization internals, events, storage lifetimes and deployment scripts: environment. `authorized` is the host's answer to a call's require_auth; a pool never authorizes a deposit in its own name.
- Token administration other than minting, such as clawback from the pool.
- AES-GCM, PBKDF2, random generation and the note store: library wrappers or plain map updates.
- Relayer server, fee estimation and relayer selection: a stub and one-line arithmetic.

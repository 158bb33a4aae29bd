/**
 The five public inputs of a withdrawal as the contract builds them, as the
 client encodes them and as the prover feeds them to the circuit.
 */
module InputCodec {
  import opened Circuit
  import opened Codec
  import opened Field
  import opened Numbers

  /** The characters of a Stellar strkey. */
  type Address = seq<Byte>

  type ProofBytes = s: seq<Byte> | |s| == 256 witness seq(256, _ => 0)

  /** Everything the pool cannot compute: Poseidon, SHA-256 and the pairing check. */
  datatype Env = Env(
    h: Poseidon,
    sha256: seq<Byte> -> Bytes32,
    verify: (ProofBytes, PublicInputs) -> bool)

  /** What the prover hands to snarkjs and the contract's caller submits. */
  datatype Withdrawal = Withdrawal(
    root: nat, nullifierHash: nat, recipient: Address, relayer: Address, fee: nat)

  // --------------------------------------------------------- contract side

  /** What the buffer of 56 characters holds of an address. */
  function AddressPrefix(addr: Address): (prefix: seq<Byte>)
    ensures |addr| <= 56 ==> prefix == addr
    ensures |addr| > 56 ==> prefix == addr[..56]
  {
    if |addr| > 56 then addr[..56] else addr
  }

  /** A strkey, 56 characters, is hashed whole. */
  method AddressToFieldBytes(env: Env, addr: Address) returns (hash: Bytes32)
    ensures |addr| <= 56 ==> hash == env.sha256(addr)
    ensures |addr| > 56 ==> hash == env.sha256(addr[..56])
  {
    var len := |addr|;
    var raw: seq<Byte> := [];
    var buf := new Byte[56](_ => 0);
    var copyLen := if len > 56 then 56 else len;
    forall i | 0 <= i < copyLen {
      buf[i] := addr[i];
    }
    for i := 0 to copyLen
      invariant raw == addr[..i]
    {
      raw := raw + [buf[i]];
    }
    assert raw == addr[..copyLen];
    assert |addr| <= 56 ==> raw == addr;
    hash := env.sha256(raw);
  }

  /** Sixteen zero bytes and then the fee cast to u128, big-endian. */
  function FeeBytes(fee: i128): Bytes32 {
    ZERO_BYTES[..16] + ToBE(fee, 16)
  }

  function ContractInputs(
    env: Env, root: Bytes32, nullifierHash: Bytes32, recipient: Address, relayer: Address, fee: i128):
    (inputs: seq<Bytes32>)
    ensures |inputs| == 5
  {
    [root, nullifierHash,
     env.sha256(AddressPrefix(recipient)), env.sha256(AddressPrefix(relayer)),
     FeeBytes(fee)]
  }

  method BuildPublicInputs(
    env: Env, root: Bytes32, nullifierHash: Bytes32, recipient: Address, relayer: Address, fee: i128)
    returns (inputs: seq<Bytes32>)
    ensures inputs == ContractInputs(env, root, nullifierHash, recipient, relayer, fee)
  {
    var recipientBytes := AddressToFieldBytes(env, recipient);
    var relayerBytes := AddressToFieldBytes(env, relayer);
    var feeBytes := FeeBytes(fee);
    inputs := [root, nullifierHash, recipientBytes, relayerBytes, feeBytes];
  }

  /** The scalars the verifier reduces its 32-byte inputs to. */
  function Scalars(inputs: seq<Bytes32>): PublicInputs
    requires |inputs| == 5
  {
    [BytesToFr(inputs[0]), BytesToFr(inputs[1]), BytesToFr(inputs[2]), BytesToFr(inputs[3]), BytesToFr(inputs[4])]
  }

  method VerifyProof(env: Env, proof: ProofBytes, inputs: seq<Bytes32>) returns (valid: bool)
    requires |inputs| == 5
    ensures valid == env.verify(proof, Scalars(inputs))
  {
    var frInputs := new Fr[5](_ => 0);
    for i := 0 to 5
      invariant forall j :: 0 <= j < i ==> frInputs[j] == BytesToFr(inputs[j])
    {
      frInputs[i] := BytesToFr(inputs[i]);
    }
    assert frInputs[..] == Scalars(inputs);
    valid := env.verify(proof, frInputs[..]);
  }

  // ----------------------------------------------------------- client side

  function AddressToField(env: Env, addr: Address): Fr {
    Reduce(FromBE(env.sha256(addr)))
  }

  /** The vector of circuit signals the proof is generated for. */
  function ProverInputs(env: Env, w: Withdrawal): PublicInputs {
    [Reduce(w.root), Reduce(w.nullifierHash),
     AddressToField(env, w.recipient), AddressToField(env, w.relayer),
     Reduce(w.fee)]
  }

  /** The 32-byte vector that `prepareWithdrawal` returns. */
  function ClientInputs(env: Env, w: Withdrawal): (inputs: seq<Bytes32>)
    ensures |inputs| == 5
  {
    [ToBytes32(w.root), ToBytes32(w.nullifierHash),
     ToBytes32(AddressToField(env, w.recipient)), ToBytes32(AddressToField(env, w.relayer)),
     ToBytes32(w.fee)]
  }

  // ------------------------------------------------------------- agreement

  lemma {:induction false} FromBEPadded(zeros: seq<Byte>, b: seq<Byte>)
    requires forall i :: 0 <= i < |zeros| ==> zeros[i] == 0
    ensures FromBE(zeros + b) == FromBE(b)
  {
    if |b| == 0 {
      assert zeros + b == zeros;
      FromBEZeros(zeros);
    } else {
      var front := b[..|b| - 1];
      FromBEPadded(zeros, front);
      assert (zeros + b)[..|zeros + b| - 1] == zeros + front;
    }
  }

  /** A non-negative fee is encoded identically by contract and client. */
  lemma FeeBytesAgree(fee: i128)
    requires fee >= 0
    ensures FeeBytes(fee) == ToBytes32(fee)
  {
    WordSizes();
    FromBEToBE(fee, 16);
    FromBEToBE(fee, 32);
    FromBEPadded(ZERO_BYTES[..16], ToBE(fee, 16));
    FromBEInjective(FeeBytes(fee), ToBytes32(fee));
  }

  lemma ReducedWord(n: nat)
    requires n < Pow256(32)
    ensures BytesToFr(ToBytes32(n)) == Reduce(n)
  {
    FromBEToBE(n, 32);
  }

  /** The verifier's scalar of a non-negative fee is the fee itself. */
  lemma FeeScalar(fee: i128)
    requires fee >= 0
    ensures BytesToFr(FeeBytes(fee)) == fee
  {
    FeeBytesAgree(fee);
    FrRoundTrip(fee);
  }

  /** What the contract proves a withdrawal for: root, nullifier hash, whole addresses, fee, in this order. */
  lemma ScalarsInOrder(
    env: Env, root: Bytes32, nullifierHash: Bytes32, recipient: Address, relayer: Address, fee: i128)
    requires |recipient| <= 56 && |relayer| <= 56 && fee >= 0
    ensures Scalars(ContractInputs(env, root, nullifierHash, recipient, relayer, fee)) == [
      FromBE(root) % P, FromBE(nullifierHash) % P,
      FromBE(env.sha256(recipient)) % P, FromBE(env.sha256(relayer)) % P, fee]
  {
    FeeScalar(fee);
  }

  /**
   Contract and client agree: the scalars the verifier derives from the contract's
   bytes are the prover's signals, position by position, and so are the scalars of
   the client's own byte vector. The byte vectors themselves differ wherever an
   address hash is not below the field order.
   */
  lemma InputsAgree(env: Env, w: Withdrawal)
    requires w.root < Pow256(32) && w.nullifierHash < Pow256(32)
    requires |w.recipient| <= 56 && |w.relayer| <= 56
    requires w.fee <= I128_MAX
    ensures var bytes := ContractInputs(
        env, ToBytes32(w.root), ToBytes32(w.nullifierHash), w.recipient, w.relayer, w.fee);
      && Scalars(bytes) == ProverInputs(env, w) == Scalars(ClientInputs(env, w))
      && (bytes == ClientInputs(env, w) <==>
            Canonical(env.sha256(w.recipient)) && Canonical(env.sha256(w.relayer)))
  {
    var bytes := ContractInputs(
      env, ToBytes32(w.root), ToBytes32(w.nullifierHash), w.recipient, w.relayer, w.fee);
    WordSizes();
    FeeBytesAgree(w.fee);
    ReducedWord(w.root);
    ReducedWord(w.nullifierHash);
    ReducedWord(w.fee);
    FrRoundTrip(AddressToField(env, w.recipient));
    FrRoundTrip(AddressToField(env, w.relayer));
    CanonicalIff(env.sha256(w.recipient));
    CanonicalIff(env.sha256(w.relayer));
    var mine := ClientInputs(env, w);
    assert bytes == mine <==> bytes[2] == mine[2] && bytes[3] == mine[3];
  }
}

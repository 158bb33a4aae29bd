/**
 The 32-byte big-endian codecs shared by contract, indexer and client, and the
 256-byte proof encoding. Loops of the source are methods; what they compute is
 stated by `FromBE` and `ToBE`.
 */
module Codec {

  type Byte = n: nat | n < 256
  type Bytes32 = b: seq<Byte> | |b| == 32 witness seq(32, _ => 0)

  function Pow256(k: nat): (r: nat)
    ensures r >= 1
  {
    if k == 0 then 1 else 256 * Pow256(k - 1)
  }

  lemma {:induction false} Pow256Add(j: nat, k: nat)
    ensures Pow256(j + k) == Pow256(j) * Pow256(k)
  {
    if j > 0 {
      Pow256Add(j - 1, k);
      assert (256 * Pow256(j - 1)) * Pow256(k) == 256 * (Pow256(j - 1) * Pow256(k));
    }
  }

  lemma WordSizes()
    ensures Pow256(16) == 0x1_0000_0000_0000_0000_0000_0000_0000_0000
    ensures Pow256(32) == 0x1_0000_0000_0000_0000_0000_0000_0000_0000_0000_0000_0000_0000_0000_0000_0000_0000
  {
    assert Pow256(4) == 0x1_0000_0000;
    Pow256Add(4, 4);
    Pow256Add(8, 8);
    Pow256Add(16, 16);
  }

  /** The unsigned integer a big-endian byte string denotes. */
  function FromBE(b: seq<Byte>): nat {
    if |b| == 0 then 0 else 256 * FromBE(b[..|b| - 1]) + b[|b| - 1]
  }

  /** The k low-order bytes of n, most significant first. */
  function ToBE(n: int, k: nat): (b: seq<Byte>)
    ensures |b| == k
    decreases k, if n < 0 then -n else n
  {
    if k == 0 then [] else ToBE(n / 256, k - 1) + [n % 256]
  }

  function ToBytes32(n: int): Bytes32 {
    ToBE(n, 32)
  }

  /** The unsigned integer a little-endian byte string denotes. */
  function FromLE(b: seq<Byte>): nat {
    if |b| == 0 then 0 else b[0] + 256 * FromLE(b[1..])
  }

  function Reversed(b: seq<Byte>): (r: seq<Byte>)
    ensures |r| == |b|
  {
    if |b| == 0 then [] else [b[|b| - 1]] + Reversed(b[..|b| - 1])
  }

  // ------------------------------------------------------------ round trips

  lemma {:induction false} FromBEBound(b: seq<Byte>)
    ensures FromBE(b) < Pow256(|b|)
  {
    if |b| > 0 {
      FromBEBound(b[..|b| - 1]);
    }
  }

  lemma {:induction false} ToBEFromBE(b: seq<Byte>)
    ensures ToBE(FromBE(b), |b|) == b
  {
    if |b| > 0 {
      var front, last := b[..|b| - 1], b[|b| - 1];
      ToBEFromBE(front);
      assert FromBE(b) / 256 == FromBE(front) && FromBE(b) % 256 == last;
      assert b == front + [last];
    }
  }

  lemma {:induction false} FromBEToBE(n: nat, k: nat)
    requires n < Pow256(k)
    ensures FromBE(ToBE(n, k)) == n
  {
    if k > 0 {
      FromBEToBE(n / 256, k - 1);
      var b := ToBE(n, k);
      assert b[..k - 1] == ToBE(n / 256, k - 1);
    }
  }

  /** Encoding keeps exactly the residue modulo 256^k, for negative n too. */
  lemma {:induction false} FromBEToBEMod(n: int, k: nat) returns (q: int)
    ensures n == Pow256(k) * q + FromBE(ToBE(n, k))
    ensures FromBE(ToBE(n, k)) < Pow256(k)
    decreases k
  {
    FromBEBound(ToBE(n, k));
    if k == 0 {
      q := n;
    } else {
      q := FromBEToBEMod(n / 256, k - 1);
      assert ToBE(n, k)[..k - 1] == ToBE(n / 256, k - 1);
      assert (256 * Pow256(k - 1)) * q == 256 * (Pow256(k - 1) * q);
    }
  }

  lemma FromBEInjective(a: seq<Byte>, b: seq<Byte>)
    requires |a| == |b| && FromBE(a) == FromBE(b)
    ensures a == b
  {
    ToBEFromBE(a);
    ToBEFromBE(b);
  }

  /** `reverse` followed by a little-endian read is a big-endian read. */
  lemma {:induction false} FromLEReversed(b: seq<Byte>)
    ensures FromLE(Reversed(b)) == FromBE(b)
  {
    if |b| > 0 {
      FromLEReversed(b[..|b| - 1]);
      assert Reversed(b)[1..] == Reversed(b[..|b| - 1]);
    }
  }

  lemma {:induction false} ReversedAt(b: seq<Byte>, k: nat)
    requires k < |b|
    ensures Reversed(b)[k] == b[|b| - 1 - k]
  {
    if k > 0 {
      ReversedAt(b[..|b| - 1], k - 1);
    }
  }

  lemma Reversed2(b: seq<Byte>)
    ensures Reversed(Reversed(b)) == b
  {
    forall k | 0 <= k < |b|
      ensures Reversed(Reversed(b))[k] == b[k]
    {
      ReversedAt(Reversed(b), k);
      ReversedAt(b, |b| - 1 - k);
    }
  }

  // ------------------------------------------------------------- the loops

  /** Horner loop over the bytes; any length. */
  method BytesToBigInt(bytes: seq<Byte>) returns (n: nat)
    ensures n == FromBE(bytes)
  {
    n := 0;
    for i := 0 to |bytes|
      invariant n == FromBE(bytes[..i])
    {
      assert bytes[..i + 1][..i] == bytes[..i];
      n := n * 256 + bytes[i];
    }
    assert bytes[..|bytes|] == bytes;
  }

  /** Writes the low 32 bytes of value into buf at offset, last byte first. */
  method WriteFieldElement(buf: array<Byte>, offset: nat, value: int)
    requires offset + 32 <= buf.Length
    modifies buf
    ensures buf[..] == old(buf[..offset]) + ToBE(value, 32) + old(buf[offset + 32..])
  {
    var val := value;
    var i := 31;
    while i >= 0
      invariant -1 <= i <= 31
      invariant buf[..offset] == old(buf[..offset])
      invariant buf[offset + 32..] == old(buf[offset + 32..])
      invariant ToBE(val, (i + 1) as nat) + buf[offset + i + 1..offset + 32] == ToBE(value, 32)
    {
      ghost var tail := buf[offset + i + 1..offset + 32];
      buf[offset + i] := val % 256;
      assert buf[offset + i..offset + 32] == [val % 256] + tail;
      assert ToBE(val, (i + 1) as nat) + tail
          == ToBE(val / 256, i) + ([val % 256] + tail);
      val := val / 256;
      i := i - 1;
    }
    assert buf[..] == buf[..offset] + buf[offset..offset + 32] + buf[offset + 32..];
  }

  method BigIntToBytes(n: int) returns (bytes: Bytes32)
    ensures bytes == ToBytes32(n)
  {
    var a := new Byte[32](_ => 0);
    WriteFieldElement(a, 0, n);
    assert a[..] == ToBE(n, 32);
    bytes := a[..];
  }

  /**
   Fills a zeroed buffer from the back with little-endian bytes. Written for any
   number of limbs' bytes, as the source is: beyond 32 they are dropped.
   */
  method LittleEndianToBytes32(le: seq<Byte>) returns (bytes: Bytes32)
    ensures |le| == 32 ==> bytes == Reversed(le)
  {
    var be := new Byte[32](_ => 0);
    var len := if |le| < 32 then |le| else 32;
    for i := 0 to len
      invariant forall k :: 0 <= k < i ==> be[31 - k] == le[k]
    {
      be[31 - i] := le[i];
    }
    bytes := be[..];
    if |le| == 32 {
      forall k | 0 <= k < 32
        ensures bytes[k] == Reversed(le)[k]
      {
        ReversedAt(le, k);
        assert be[31 - (31 - k)] == le[31 - k];
      }
    }
  }

  // --------------------------------------------------- the 256-byte proof

  /** The coordinates of a proof in the order snarkjs stores them. */
  datatype Groth16Proof = Groth16Proof(
    ax: nat, ay: nat,
    bx0: nat, bx1: nat,
    by0: nat, by1: nat,
    cx: nat, cy: nat)

  /** The eight 32-byte coordinate slices that the verifier cuts out. */
  datatype DecodedProof = DecodedProof(
    ax: seq<Byte>, ay: seq<Byte>,
    bxC0: seq<Byte>, bxC1: seq<Byte>,
    byC0: seq<Byte>, byC1: seq<Byte>,
    cx: seq<Byte>, cy: seq<Byte>)

  /** The layout of an encoded proof: C1 coordinates follow C0 in each B pair. */
  function ProofWords(proof: Groth16Proof): (words: seq<Bytes32>)
    ensures |words| == 8
  {
    [ToBytes32(proof.ax), ToBytes32(proof.ay),
     ToBytes32(proof.bx1), ToBytes32(proof.bx0),
     ToBytes32(proof.by1), ToBytes32(proof.by0),
     ToBytes32(proof.cx), ToBytes32(proof.cy)]
  }

  function Joined(words: seq<Bytes32>): (b: seq<Byte>)
    ensures |b| == 32 * |words|
  {
    if |words| == 0 then [] else Joined(words[..|words| - 1]) + words[|words| - 1]
  }

  lemma {:induction false} JoinedWord(words: seq<Bytes32>, j: nat)
    requires j < |words|
    ensures Joined(words)[32 * j..32 * j + 32] == words[j]
  {
    var n := |words| - 1;
    if j < n {
      JoinedWord(words[..n], j);
      assert Joined(words)[32 * j..32 * j + 32] == Joined(words[..n])[32 * j..32 * j + 32];
    }
  }

  /** Writes word j behind a prefix that already holds the first j words. */
  method WriteWord(buf: array<Byte>, j: nat, value: nat, ghost words: seq<Bytes32>)
    requires j < |words| && 32 * |words| == buf.Length
    requires words[j] == ToBytes32(value)
    requires buf[..32 * j] == Joined(words[..j])
    modifies buf
    ensures buf[..32 * j + 32] == Joined(words[..j + 1])
  {
    ghost var prefix := buf[..32 * j];
    WriteFieldElement(buf, 32 * j, value);
    assert buf[..32 * j + 32] == prefix + words[j];
    assert words[..j + 1][..j] == words[..j];
  }

  /** Where each coordinate of an encoded proof lies. */
  lemma ProofLayout(proof: Groth16Proof)
    ensures var b := Joined(ProofWords(proof));
      && b[0..32] == ToBytes32(proof.ax) && b[32..64] == ToBytes32(proof.ay)
      && b[64..96] == ToBytes32(proof.bx1) && b[96..128] == ToBytes32(proof.bx0)
      && b[128..160] == ToBytes32(proof.by1) && b[160..192] == ToBytes32(proof.by0)
      && b[192..224] == ToBytes32(proof.cx) && b[224..256] == ToBytes32(proof.cy)
  {
    var words := ProofWords(proof);
    JoinedWord(words, 0);
    JoinedWord(words, 1);
    JoinedWord(words, 2);
    JoinedWord(words, 3);
    JoinedWord(words, 4);
    JoinedWord(words, 5);
    JoinedWord(words, 6);
    JoinedWord(words, 7);
  }

  method EncodeProofForContract(proof: Groth16Proof) returns (result: seq<Byte>)
    ensures |result| == 256
    ensures result[0..32] == ToBytes32(proof.ax) && result[32..64] == ToBytes32(proof.ay)
    ensures result[64..96] == ToBytes32(proof.bx1) && result[96..128] == ToBytes32(proof.bx0)
    ensures result[128..160] == ToBytes32(proof.by1) && result[160..192] == ToBytes32(proof.by0)
    ensures result[192..224] == ToBytes32(proof.cx) && result[224..256] == ToBytes32(proof.cy)
    ensures result == Joined(ProofWords(proof))
  {
    var buf := new Byte[256](_ => 0);
    ghost var words := ProofWords(proof);
    WriteWord(buf, 0, proof.ax, words);
    WriteWord(buf, 1, proof.ay, words);
    WriteWord(buf, 2, proof.bx1, words);
    WriteWord(buf, 3, proof.bx0, words);
    WriteWord(buf, 4, proof.by1, words);
    WriteWord(buf, 5, proof.by0, words);
    WriteWord(buf, 6, proof.cx, words);
    WriteWord(buf, 7, proof.cy, words);
    assert words[..8] == words;
    assert buf[..256] == buf[..];
    ProofLayout(proof);
    result := buf[..];
  }

  function DecodeProof(bytes: seq<Byte>): DecodedProof
    requires |bytes| == 256
  {
    DecodedProof(
      bytes[0..32], bytes[32..64],
      bytes[64..96], bytes[96..128],
      bytes[128..160], bytes[160..192],
      bytes[192..224], bytes[224..256])
  }

  /** Decoding an encoded proof gives back the eight coordinates, C0 before C1. */
  lemma DecodeEncoded(proof: Groth16Proof)
    ensures DecodeProof(Joined(ProofWords(proof))) == DecodedProof(
        ToBytes32(proof.ax), ToBytes32(proof.ay),
        ToBytes32(proof.bx1), ToBytes32(proof.bx0),
        ToBytes32(proof.by1), ToBytes32(proof.by0),
        ToBytes32(proof.cx), ToBytes32(proof.cy))
  {
    ProofLayout(proof);
  }
}

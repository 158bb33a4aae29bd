/**
 The BN254 scalar field, the Poseidon hash as an uninterpreted pair of
 functions on it, and the byte wrappers that contract and indexer hash with.
 */
module Field {
  import opened Codec
  import opened Numbers

  /** Order of the BN254 scalar field. */
  const P: nat := 21888242871839275222246405745257275088548364400416034343698204186575808495617

  /** P is the order of the curve's scalar field: the BN polynomial at the curve's parameter. */
  lemma FieldOrder()
    ensures var x := 4965661367192848881;
      P == 36 * (x * x * x * x) + 36 * (x * x * x) + 18 * (x * x) + 6 * x + 1
  {
  }

  type Fr = n: nat | n < P witness 0

  function Reduce(n: int): Fr {
    n % P
  }

  function FAdd(a: Fr, b: Fr): Fr {
    (a + b) % P
  }

  function FSub(a: Fr, b: Fr): Fr {
    (a - b) % P
  }

  function FMul(a: Fr, b: Fr): Fr {
    (a * b) % P
  }

  /** Poseidon with one and with two inputs. Nothing is assumed about either. */
  datatype Poseidon = Poseidon(h1: Fr -> Fr, h2: (Fr, Fr) -> Fr)

  /** Reverses to little-endian, reads the integer and reduces it. */
  function BytesToFr(b: seq<Byte>): (f: Fr)
    ensures f == FromBE(b) % P
  {
    FromLEReversed(b);
    FromLE(Reversed(b)) % P
  }

  function FrToBytes(f: Fr): Bytes32 {
    ToBytes32(f)
  }

  /** The loop of `fr_to_bytes` over the element's 32 little-endian bytes. */
  method EncodeFr(f: Fr) returns (b: Bytes32)
    ensures b == FrToBytes(f)
  {
    var le := Reversed(ToBE(f, 32));
    Reversed2(ToBE(f, 32));
    b := LittleEndianToBytes32(le);
  }

  function HashPairBytes(h: Poseidon, left: Bytes32, right: Bytes32): Bytes32 {
    FrToBytes(h.h2(BytesToFr(left), BytesToFr(right)))
  }

  function HashSingleBytes(h: Poseidon, input: Bytes32): Bytes32 {
    FrToBytes(h.h1(BytesToFr(input)))
  }

  const ZERO_BYTES: Bytes32 := [
    0, 0, 0, 0, 0, 0, 0, 0, 0, 0, 0, 0, 0, 0, 0, 0,
    0, 0, 0, 0, 0, 0, 0, 0, 0, 0, 0, 0, 0, 0, 0, 0]

  // ------------------------------------------------------------ round trips

  lemma FrFitsBytes(f: Fr)
    ensures FromBE(FrToBytes(f)) == f
  {
    WordSizes();
    FromBEToBE(f, 32);
  }

  /** Decoding an encoded field element gives it back. */
  lemma FrRoundTrip(f: Fr)
    ensures FromBE(FrToBytes(f)) == f
    ensures BytesToFr(FrToBytes(f)) == f
  {
    FrFitsBytes(f);
  }

  /** A byte string is canonical when it denotes a number below the field order. */
  predicate Canonical(b: Bytes32) {
    FromBE(b) < P
  }

  /** Encoding a decoded string gives it back exactly when it was canonical. */
  lemma CanonicalIff(b: Bytes32)
    ensures Canonical(b) <==> FrToBytes(BytesToFr(b)) == b
  {
    var v, f := FromBE(b), BytesToFr(b);
    if v < P {
      assert f == v;
      ToBEFromBE(b);
    } else {
      FrFitsBytes(f);
    }
  }

  /** Canonical strings are told apart by their field elements. */
  lemma CanonicalInjective(a: Bytes32, b: Bytes32)
    requires Canonical(a) && Canonical(b)
    ensures BytesToFr(a) == BytesToFr(b) <==> a == b
  {
    CanonicalIff(a);
    CanonicalIff(b);
  }

  // ------------------------------------------------------- other encodings

  /** The strings that denote r, r + p, ..., r + (k - 1)p, as far as they fit 32 bytes. */
  function EncodingsBelow(r: Fr, k: nat): (s: set<Bytes32>)
    ensures |s| <= k
  {
    if k == 0 then {}
    else EncodingsBelow(r, k - 1) + Fitting(P * (k - 1) + r)
  }

  /** The 32-byte string that denotes n, if there is one. */
  function Fitting(n: nat): (s: set<Bytes32>)
    ensures |s| <= 1
  {
    if n < Pow256(32) then {ToBytes32(n)} else {}
  }

  /** Every 32-byte encoding of the field element that b denotes: six at most, as 2^256 < 6p. */
  function Encodings(b: Bytes32): (s: set<Bytes32>)
    ensures |s| <= 6
  {
    EncodingsBelow(BytesToFr(b), 6)
  }

  lemma QuotientIff(v: nat, q: nat, r: Fr)
    ensures v == P * q + r <==> v / P == q && v % P == r
  {
    DivModUnique(P, q, r);
    assert v == P * (v / P) + v % P;
  }

  lemma FittingIff(n: nat, c: Bytes32)
    ensures c in Fitting(n) <==> FromBE(c) == n
  {
    FromBEBound(c);
    ToBEFromBE(c);
    if n < Pow256(32) {
      FromBEToBE(n, 32);
    }
  }

  lemma {:induction false} EncodingsBelowIff(r: Fr, k: nat, c: Bytes32)
    ensures c in EncodingsBelow(r, k) <==> FromBE(c) % P == r && FromBE(c) / P < k
  {
    if k > 0 {
      EncodingsBelowIff(r, k - 1, c);
      QuotientIff(FromBE(c), k - 1, r);
      FittingIff(P * (k - 1) + r, c);
    }
  }

  /** The encodings of b are exactly the strings with its residue. */
  lemma EncodingsIff(b: Bytes32, c: Bytes32)
    ensures c in Encodings(b) <==> BytesToFr(c) == BytesToFr(b)
  {
    EncodingsBelowIff(BytesToFr(b), 6, c);
    FromBEBound(c);
    WordSizes();
  }

  /** Every string has another that denotes the same element. */
  lemma AliasExists(a: Bytes32) returns (b: Bytes32)
    ensures b != a && BytesToFr(b) == BytesToFr(a)
    ensures Canonical(a) ==> FromBE(b) == FromBE(a) + P
  {
    WordSizes();
    FromBEBound(a);
    var n := FromBE(a);
    var m := if n + P < Pow256(32) then n + P else n - P;
    b := ToBytes32(m);
    FromBEToBE(m, 32);
    var q, r := n / P, n % P;
    DivModUnique(P, q + 1, r);
    DivModUnique(P, q - 1, r);
    assert n == P * q + r;
    assert n + P == P * (q + 1) + r && n - P == P * (q - 1) + r;
  }

  lemma {:induction false} FromBEZeros(b: seq<Byte>)
    requires forall i :: 0 <= i < |b| ==> b[i] == 0
    ensures FromBE(b) == 0
  {
    if |b| > 0 {
      FromBEZeros(b[..|b| - 1]);
    }
  }
}

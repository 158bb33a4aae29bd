/**
 Integer widths of the contracts, powers, primes and the few modular facts
 that the codecs, the circuit and the root ring buffer need.
 */
module Numbers {
  const U32_MAX: int := 0xFFFF_FFFF
  const I128_MAX: int := 0x7FFF_FFFF_FFFF_FFFF_FFFF_FFFF_FFFF_FFFF

  // Every value stored in a `u32` or `i128` is checked against its width, so a
  // verified assignment is also a proof that the source's arithmetic cannot overflow.
  type u32 = x: int | 0 <= x <= U32_MAX
  type i128 = x: int | -I128_MAX - 1 <= x <= I128_MAX

  function Pow2(k: nat): (r: nat)
    ensures r >= 1
  {
    if k == 0 then 1 else 2 * Pow2(k - 1)
  }

  lemma {:induction false} Pow2Monotone(j: nat, k: nat)
    requires j <= k
    ensures Pow2(j) <= Pow2(k)
  {
    if j < k {
      Pow2Monotone(j, k - 1);
    }
  }

  lemma Pow2Of32()
    ensures Pow2(32) == U32_MAX + 1
  {
    assert Pow2(8) == 256;
    assert Pow2(16) == 0x1_0000;
    assert Pow2(24) == 0x100_0000;
  }

  // ---------------------------------------------------------------- primes

  predicate Divides(d: int, n: int)
    requires d != 0
  {
    n % d == 0
  }

  ghost predicate IsPrime(p: nat) {
    2 <= p && forall d :: 2 <= d < p ==> !Divides(d, p)
  }

  lemma ProductAtLeast(p: nat, d: int)
    ensures d >= 1 ==> p * d >= p
    ensures d <= -1 ==> p * d + p <= 0
  {
  }

  lemma DivModUnique(p: nat, q: int, r: int)
    requires 0 <= r < p
    ensures (p * q + r) / p == q && (p * q + r) % p == r
  {
    var n := p * q + r;
    var d := n / p - q;
    assert n == p * (n / p) + n % p;
    assert p * d == p * (n / p) - p * q == r - n % p;
    ProductAtLeast(p, d);
  }

  lemma MultipleMod(p: nat, x: int)
    requires 0 < p
    ensures (p * x) % p == 0
  {
    DivModUnique(p, x, 0);
  }

  /** Euclid's lemma: a prime that divides a product divides a factor. */
  lemma {:induction false} EuclidLemma(p: nat, a: int, b: int)
    requires IsPrime(p)
    requires (a * b) % p == 0
    ensures a % p == 0 || b % p == 0
  {
    var r := a % p;
    if r != 0 {
      var k, q := (a * b) / p, a / p;
      assert a * b == p * k;
      assert a == p * q + r;
      assert a * b == p * (q * b) + r * b;
      assert r * b == p * k - p * (q * b);
      assert p * k - p * (q * b) == p * (k - q * b);
      EuclidDescent(p, r, b, k - q * b);
    }
  }

  lemma {:induction false} EuclidDescent(p: nat, r: nat, b: int, k: int)
    requires IsPrime(p)
    requires 0 < r < p
    requires r * b == p * k
    ensures b % p == 0
    decreases r
  {
    if r == 1 {
      assert b == p * k;
      MultipleMod(p, k);
    } else {
      var q, s := p / r, p % r;
      assert !Divides(r, p);
      assert p == r * q + s;
      calc {
        s * b;
        (p - r * q) * b;
        p * b - q * (r * b);
        p * b - q * (p * k);
        p * (b - q * k);
      }
      EuclidDescent(p, s, b, b - q * k);
    }
  }

  // --------------------------------------------------- positions of a ring

  /** Two numbers closer than the modulus have different remainders. */
  lemma ModSeparates(m: nat, j: nat, size: nat)
    requires 0 < size
    requires m < j < m + size
    ensures m % size != j % size
  {
    var d := j / size - m / size;
    assert size * d == size * (j / size) - size * (m / size) == j - m - (j % size - m % size);
    ProductAtLeast(size, d);
  }

  /** Advancing a reduced position and reducing again follows the counter. */
  lemma ModSucc(k: nat, size: nat)
    requires 0 < size
    ensures (k % size + 1) % size == (k + 1) % size
  {
    var q, r := k / size, k % size;
    assert k == size * q + r;
    if r + 1 < size {
      DivModUnique(size, q, r + 1);
      DivModUnique(size, 0, r + 1);
    } else {
      assert k + 1 == size * (q + 1) + 0;
      DivModUnique(size, q + 1, 0);
      DivModUnique(size, 1, 0);
    }
  }
}

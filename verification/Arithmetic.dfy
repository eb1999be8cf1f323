/** Powers of two, Euclidean quotients and the number types of the machine. */
module Arithmetic {

  const TWO32: int := 0x1_0000_0000
  const TWO63: nat := 0x8000_0000_0000_0000
  const TWO64: nat := 0x1_0000_0000_0000_0000

  /** A byte and a 64-bit word, as numbers. */
  type Cell = b: nat | b < 256
  type Quad = n: nat | n < TWO64

  type Positive = p: nat | p > 0
    witness 1

  function Pow2(k: nat): (r: nat)
    ensures r >= 1
  {
    if k == 0 then 1 else 2 * Pow2(k - 1)
  }

  lemma {:induction false} Pow2Grows(a: nat, b: nat)
    requires a < b
    ensures 2 * Pow2(a) <= Pow2(b)
    decreases b
  {
    if a < b - 1 { Pow2Grows(a, b - 1); }
  }

  lemma TopBit() returns (top: nat)
    ensures top == 63 && Pow2(top) == TWO63
  {
    assert Pow2(8) == 0x100 && Pow2(16) == 0x1_0000 && Pow2(24) == 0x100_0000;
    assert Pow2(32) == 0x1_0000_0000 && Pow2(40) == 0x100_0000_0000;
    assert Pow2(48) == 0x1_0000_0000_0000 && Pow2(56) == 0x100_0000_0000_0000;
    top := 63;
  }

  lemma {:induction false} Pow2Adds(a: nat, b: nat)
    ensures Pow2(a + b) == Pow2(a) * Pow2(b)
    decreases b
  {
    if b > 0 {
      Pow2Adds(a, b - 1);
      Doubles(Pow2(a), Pow2(b - 1));
    }
  }

  lemma Doubles(a: nat, b: nat)
    ensures a * (2 * b) == 2 * (a * b)
  {
  }

  // ---- Quotients ----

  lemma Scale(a: int, b: int, p: nat)
    requires a <= b
    ensures a * p <= b * p
  {
    Product(b - a, p);
    assert (b - a) * p == b * p - a * p;
  }

  lemma Product(a: int, p: int)
    requires a >= 0 && p >= 0
    ensures a * p >= 0
  {
  }

  lemma Split(n: nat, p: Positive)
    ensures n == n / p * p + n % p && 0 <= n % p < p && n / p >= 0
  {
  }

  /** Euclid's quotient by its defining inequality. */
  lemma QuotientBelow(n: nat, k: int, p: Positive)
    ensures n / p < k <==> n < k * p
  {
    Split(n, p);
    if n / p < k {
      Scale(n / p + 1, k, p);
      assert (n / p + 1) * p == n / p * p + p;
    } else {
      Scale(k, n / p, p);
    }
  }

  lemma QuotientIs(n: nat, k: int, p: Positive)
    requires k * p <= n < k * p + p
    ensures n / p == k && n % p == n - k * p
  {
    assert (k + 1) * p == k * p + p;
    QuotientBelow(n, k, p);
    QuotientBelow(n, k + 1, p);
    Split(n, p);
  }

  lemma QuotientGrows(a: nat, b: nat, p: Positive)
    requires a <= b
    ensures a / p <= b / p
  {
    QuotientBelow(b, a / p, p);
    Split(a, p);
  }

  /** Reducing by a multiple of the divisor reduces the quotient. */
  lemma WrappedQuotient(x: nat, p: Positive, m: Positive, w: Positive)
    requires w == p * m
    ensures x % w / p == x / p - x / w * m && x % w % p == x % p
  {
    Split(x, w);
    Split(x % w, p);
    var k, q, r := x / w, x % w / p, x % w % p;
    assert k * w == k * m * p;
    assert (k * m + q) * p == k * m * p + q * p;
    assert x == (k * m + q) * p + r;
    QuotientIs(x, k * m + q, p);
  }

  /** Moving on by t from position q * p moves the quotient on by t / p. */
  lemma QuotientShift(q: nat, t: nat, p: Positive)
    ensures q * p + t >= 0 && (q * p + t) / p == q + t / p
  {
    Product(q, p);
    Split(t, p);
    assert (q + t / p) * p == q * p + t / p * p;
    QuotientIs(q * p + t, q + t / p, p);
  }
}

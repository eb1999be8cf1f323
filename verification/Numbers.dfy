/** The two readings of a machine word: the set of its one bits, and the number
    that the bus carries. */
module Numbers {
  import opened Words
  import opened Arithmetic

  /** Bit b of the number v. */
  predicate Bit(v: nat, b: nat) { v / Pow2(b) % 2 == 1 }

  /** The one bits of a 64-bit value. */
  function Bits(v: nat): (w: Word)
    ensures forall b: nat :: b in w <==> b < 64 && Bit(v, b)
  {
    set b: nat | b in Range(0, 64) && Bit(v, b)
  }

  /** The number whose one bits below k are those of w. */
  function NumberBelow(w: Word, k: nat): nat {
    if k == 0 then 0 else NumberBelow(w, k - 1) + if k - 1 in w then Pow2(k - 1) else 0
  }

  function Number(w: Word): (n: nat) {
    NumberBelow(w, 64)
  }

  lemma {:induction false} NumberBelowBound(w: Word, k: nat)
    ensures NumberBelow(w, k) < Pow2(k)
    decreases k
  {
    if k > 0 { NumberBelowBound(w, k - 1); }
  }

  /** Bit k of a number, apart from the bits below it. */
  lemma HighBit(v: nat, k: nat)
    ensures v % Pow2(k + 1) == v % Pow2(k) + if Bit(v, k) then Pow2(k) else 0
  {
    var p := Pow2(k);
    Split(v, p);
    var q, r := v / p, v % p;
    assert q == q / 2 * 2 + q % 2;
    assert q * p == q / 2 * (2 * p) + q % 2 * p by { Regroup(q / 2, q % 2, p); }
    assert q % 2 * p == if Bit(v, k) then p else 0;
    QuotientIs(v, q / 2, 2 * p);
  }

  lemma Regroup(h: nat, l: nat, p: nat)
    ensures (h * 2 + l) * p == h * (2 * p) + l * p
  {
  }

  /** The low k bits of a number give it back modulo 2^k. */
  lemma {:induction false} BitsNumber(v: nat, k: nat)
    requires k <= 64
    ensures NumberBelow(Bits(v), k) == v % Pow2(k)
    decreases k
  {
    if k > 0 {
      BitsNumber(v, k - 1);
      HighBit(v, k - 1);
    }
  }

  lemma Pow2At64(k: nat)
    requires k == 64
    ensures Pow2(k) == TWO64
  {
    var top := TopBit();
    assert k == top + 1;
  }

  /** Number and Bits are inverse on 64-bit values. */
  lemma NumberOfBits(v: Quad)
    ensures Number(Bits(v)) == v
  {
    Pow2At64(64);
    BitsNumber(v, 64);
  }

  /** The bits of a number built from a word are that word's. */
  lemma {:induction false} BitOfNumber(w: Word, k: nat, b: nat)
    requires b < k
    ensures Bit(NumberBelow(w, k), b) <==> b in w
    decreases k
  {
    if b == k - 1 {
      TopBitOfNumber(w, b);
    } else {
      BitOfNumber(w, k - 1, b);
      LowBitOfNumber(w, k - 1, b);
    }
  }

  lemma TopBitOfNumber(w: Word, k: nat)
    ensures Bit(NumberBelow(w, k + 1), k) <==> k in w
  {
    NumberBelowBound(w, k);
    if k in w { TopOfSum(NumberBelow(w, k), k); } else { NoBitAbove(NumberBelow(w, k), k, k); }
  }

  lemma LowBitOfNumber(w: Word, k: nat, b: nat)
    requires b < k
    ensures Bit(NumberBelow(w, k + 1), b) <==> Bit(NumberBelow(w, k), b)
  {
    if k in w { AddHighBit(NumberBelow(w, k), k, b); }
  }

  lemma NoBitAbove(n: nat, k: nat, b: nat)
    requires n < Pow2(k) && k <= b
    ensures !Bit(n, b)
  {
    if k < b { Pow2Grows(k, b); }
    QuotientIs(n, 0, Pow2(b));
  }

  lemma TopOfSum(low: nat, k: nat)
    requires low < Pow2(k)
    ensures Bit(low + Pow2(k), k)
  {
    QuotientIs(low + Pow2(k), 1, Pow2(k));
  }

  /** 2^k is an even multiple of every lower power. */
  lemma EvenMultiple(k: nat, b: nat) returns (h: nat)
    requires b < k
    ensures Pow2(k) == 2 * h * Pow2(b)
  {
    h := Pow2(k - b - 1);
    Pow2Adds(b, k - b);
    Commute(Pow2(b), 2 * h);
  }

  lemma Commute(a: nat, b: nat)
    ensures a * b == b * a
  {
  }

  /** Adding 2^k does not touch a bit below k. */
  lemma AddHighBit(n: nat, k: nat, b: nat)
    requires b < k
    ensures Bit(n + Pow2(k), b) <==> Bit(n, b)
  {
    var h := EvenMultiple(k, b);
    EvenShift(n, h, Pow2(b), n + Pow2(k));
  }

  lemma EvenShift(n: nat, h: nat, p: Positive, x: nat)
    requires x == 2 * h * p + n
    ensures x / p % 2 == n / p % 2
  {
    QuotientShift(2 * h, n, p);
    Parity(h, n / p);
  }

  lemma Parity(h: nat, q: nat)
    ensures (2 * h + q) % 2 == q % 2
  {
  }

  lemma BitsOfNumber(w: Word)
    ensures Bits(Number(w)) == w && Number(w) < TWO64
  {
    Pow2At64(64);
    NumberBelowBound(w, 64);
    forall b: nat | b < 64 ensures b in Bits(Number(w)) <==> b in w {
      BitOfNumber(w, 64, b);
    }
  }
}

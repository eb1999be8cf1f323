/** The interval timer's period and firing rule (chipsetLib/CchipIntervalTimer.h,
    chipsetLib/Tsunami21272_CsrSpec.h, TsunamiChipset::step). */
module Timer {
  import opened Arithmetic

  function Distance(a: int, b: int): nat { if a < b then b - a else a - b }

  /** 2^bit is as close to n as any power of two, and no larger power ties. */
  ghost predicate Nearest(n: nat, bit: nat) {
    forall k: nat :: Distance(Pow2(bit), n) <= Distance(Pow2(k), n)
                     && (k > bit ==> Distance(Pow2(bit), n) < Distance(Pow2(k), n))
  }

  lemma NearestFromBounds(n: nat, bit: nat)
    requires n <= Pow2(bit) ==> bit == 0 || Pow2(bit) - n <= n - Pow2(bit - 1)
    requires n > Pow2(bit) ==> n <= 2 * Pow2(bit) && n - Pow2(bit) < 2 * Pow2(bit) - n
    ensures Nearest(n, bit)
  {
    forall k: nat
      ensures Distance(Pow2(bit), n) <= Distance(Pow2(k), n)
      ensures k > bit ==> Distance(Pow2(bit), n) < Distance(Pow2(k), n)
    {
      if k > bit {
        Pow2Grows(bit, k);
      } else if k < bit {
        Pow2Grows(k, bit);
      }
    }
  }

  /** The loop variable of roundLog2Nearest after k doublings in 64 bits. */
  function Doubled(k: nat): nat {
    if k == 0 then 1 else 2 * Doubled(k - 1) % 0x1_0000_0000_0000_0000
  }

  lemma {:induction false} DoubledIs(k: nat, top: nat)
    requires Pow2(top) == TWO63
    ensures Doubled(k) == if k <= top then Pow2(k) else 0
    decreases k
  {
    if k > 0 {
      DoubledIs(k - 1, top);
      if k - 1 < top { Pow2Grows(k - 1, top); }
    }
  }

  /** The loop ends if and only if n is at most 2^63: above that the doubling
      wraps to zero and never reaches n. */
  lemma LoopEndsIff(n: nat)
    ensures (exists k: nat :: Doubled(k) >= n) <==> n <= TWO63
  {
    var top := TopBit();
    DoubledIs(top, top);
    if k: nat :| Doubled(k) >= n {
      DoubledIs(k, top);
      if k < top { Pow2Grows(k, top); }
    }
  }

  /** The smallest power of two that reaches n is no higher than 2^63. */
  lemma AtMostTop(bit: nat, n: nat)
    requires n <= TWO63 && (bit > 0 ==> Pow2(bit) / 2 < n)
    ensures Pow2(bit) <= TWO63
  {
    var top := TopBit();
    if bit < top { Pow2Grows(bit, top); } else if top < bit { Pow2Grows(top, bit); }
  }

  /** roundLog2Nearest, on the inputs for which it returns. */
  method RoundLog2Nearest(n: nat) returns (bit: nat)
    requires n <= TWO63
    ensures n >= 1 ==> Nearest(n, bit)
    ensures n == 0 ==> bit == 0
    ensures Pow2(bit) <= TWO63
  {
    bit := 0;
    var v := 1;
    while v < n
      invariant v == Pow2(bit)
      invariant bit > 0 ==> v / 2 < n
      decreases n - v
    {
      bit := bit + 1;
      v := 2 * v % 0x1_0000_0000_0000_0000;
    }
    AtMostTop(bit, n);
    if bit > 0 && n - v / 2 < v - n {
      bit := bit - 1;
    }
    if n >= 1 {
      NearestFromBounds(n, bit);
    }
  }

  // ---- Firing ----

  /** A period in cycles.  The build's is 2 to the bit that roundLog2Nearest
      gives for the profile clock; all that is used of it is that it is positive
      and, where the counter wraps, that it divides 2^64. */
  type Period = Positive

  /** The per-cycle predicate. */
  predicate ShouldFire(p: Period, cycle: nat) {
    cycle != 0 && cycle % p == 0
  }

  /** step()'s test: the chunk ends in another period than it began. */
  predicate Crosses(p: Period, prev: nat, now: nat) {
    now / p != prev / p
  }

  /** For every period, a chunk crosses if and only if it contains a cycle at
      which the per-cycle predicate fires. */
  lemma CrossesIff(p: Period, prev: nat, cycles: nat)
    ensures Crosses(p, prev, prev + cycles) <==> exists c: nat :: prev < c <= prev + cycles && ShouldFire(p, c)
    ensures prev + cycles < TWO64 ==> (Fires(p, prev, cycles) <==> Crosses(p, prev, prev + cycles))
  {
    var now := prev + cycles;
    QuotientGrows(prev, now, p);
    if Crosses(p, prev, now) {
      var k := now / p;
      Product(k, p);
      var c: nat := k * p;
      QuotientBelow(prev, k, p);
      QuotientBelow(now, k, p);
      QuotientIs(c, k, p);
      assert prev < c <= now && ShouldFire(p, c);
    }
    if c: nat :| prev < c <= now && ShouldFire(p, c) {
      Split(c, p);
      QuotientBelow(prev, c / p, p);
      QuotientGrows(c, now, p);
    }
  }

  /** A chunk crosses exactly when it carries the position inside the period past
      its end. */
  lemma CrossesFrom(p: Period, prev: nat, cycles: nat)
    ensures Crosses(p, prev, prev + cycles) <==> p <= prev % p + cycles
  {
    Split(prev, p);
    QuotientShift(prev / p, prev % p + cycles, p);
    QuotientBelow(prev % p + cycles, 1, p);
  }

  // ---- The 64-bit cycle counter ----

  /** What step() tests: the counter before and after, in 64 bits. */
  predicate Fires(p: Period, prev: nat, cycles: nat) {
    Crosses(p, prev, (prev + cycles) % TWO64)
  }

  /** How far a step of less than a turn w can carry the quotient. */
  lemma TurnBounds(p: Period, m: Period, w: Period, prev: nat, t: nat)
    requires w == p * m && prev < w && t < p + w
    ensures prev / p < m && t / p <= m
    ensures p <= t < w <==> 1 <= t / p < m
  {
    assert m * p == w && (m + 1) * p == w + p && 1 * p == p;
    QuotientBelow(prev, m, p);
    QuotientBelow(t, m + 1, p);
    QuotientBelow(t, m, p);
    QuotientBelow(t, 1, p);
  }

  /** Less one turn if it wrapped, the quotient is the old one exactly when it
      has moved by nothing or by a whole turn. */
  lemma WrapsOnce(m: Period, w: Period, p: Period, q: nat, d: nat, x: nat)
    requires w == p * m && x < w + w && x / p == q + d && q < m && d <= m
    ensures x / p - x / w * m != q <==> 1 <= d < m
  {
    assert m * p == w;
    QuotientBelow(x, m, p);
    assert 1 * w == w && 2 * w == w + w;
    QuotientBelow(x, 1, w);
    QuotientBelow(x, 2, w);
    assert x / w == 0 || x / w == 1;
    assert 0 * m == 0 && 1 * m == m;
  }

  /** The exact condition, wrap included: a step fires if and only if it carries
      the position inside the period past its end and, measured from the start
      of that period, stays short of a whole turn of the counter. */
  lemma FiresIff(p: Period, m: Period, prev: nat, cycles: nat)
    requires p * m == TWO64 && prev < TWO64 && cycles < TWO64
    ensures Fires(p, prev, cycles) <==> p <= prev % p + cycles < TWO64
  {
    Split(prev, p);
    FiresFrom(p, m, TWO64, prev / p, prev % p + cycles, prev, prev + cycles);
  }

  /** The same from position q * p, moving on by t. */
  lemma FiresFrom(p: Period, m: Period, w: Period, q: nat, t: nat, prev: nat, x: nat)
    requires w == p * m && prev < w && q == prev / p && x == q * p + t && t < p + w && x < w + w
    ensures x % w / p != q <==> p <= t < w
  {
    QuotientShift(q, t, p);
    TurnBounds(p, m, w, prev, t);
    WrappedQuotient(x, p, m, w);
    WrapsOnce(m, w, p, q, t / p, x);
  }

  /** Two steps that together stay short of a whole turn fire as one does. */
  lemma FiresSplits(p: Period, m: Period, prev: nat, a: nat, b: nat)
    requires p * m == TWO64 && prev < TWO64 && prev % p + a + b < TWO64
    ensures var mid := (prev + a) % TWO64;
            && mid % p + b <= prev % p + a + b
            && (Fires(p, prev, a + b) <==> Fires(p, prev, a) || Fires(p, mid, b))
  {
    var mid := (prev + a) % TWO64;
    Split(prev, p);
    Split(prev + a, p);
    WrappedQuotient(prev + a, p, m, TWO64);
    FiresIff(p, m, prev, a);
    FiresIff(p, m, prev, a + b);
    var u := prev % p;
    if u + a < p {
      QuotientIs(prev + a, prev / p, p);
    } else {
      Remainder(p, prev, a);
    }
    FiresIff(p, m, mid, b);
  }

  lemma Remainder(p: Period, prev: nat, a: nat)
    ensures (prev + a) % p <= prev % p + a
  {
    Split(prev, p);
    Split(prev + a, p);
    QuotientGrows(prev, prev + a, p);
    Scale(prev / p, (prev + a) / p, p);
  }

  /** Every timer bit's period divides the counter's range. */
  lemma PeriodDivides(bit: nat) returns (m: Period)
    requires Pow2(bit) <= TWO63
    ensures Pow2(bit) * m == TWO64
  {
    var top := TopBit();
    if bit > top { Pow2Grows(top, bit); }
    Pow2Adds(bit, top + 1 - bit);
    m := Pow2(top + 1 - bit);
  }

  /** A timer tick falls in the cycles after prev. */
  ghost predicate TickIn(bit: nat, prev: nat, cycles: nat) {
    exists c: nat :: prev < c <= prev + cycles && ShouldFire(Pow2(bit), c)
  }

  lemma TickIff(bit: nat, prev: Quad, cycles: Quad)
    requires Pow2(bit) <= TWO63 && prev % Pow2(bit) + cycles < TWO64
    ensures Fires(Pow2(bit), prev, cycles) <==> TickIn(bit, prev, cycles)
  {
    var p := Pow2(bit);
    var m := PeriodDivides(bit);
    FiresIff(p, m, prev, cycles);
    CrossesIff(p, prev, cycles);
    CrossesFrom(p, prev, cycles);
  }
}

/** Overflow arithmetic of the integer ALU (coreLib/alpha_int_helpers.h).
    Integers are unbounded here; wrap-around is written out. */
module IntHelpers {
  import opened Arithmetic

  const MAX_Q: int := 0x7FFF_FFFF_FFFF_FFFF
  const MIN_Q: int := -0x8000_0000_0000_0000
  const MAX_L: int := 0x7FFF_FFFF
  const MIN_L: int := -0x8000_0000

  type Int64 = x: int | MIN_Q <= x <= MAX_Q
  type Int32 = x: int | MIN_L <= x <= MAX_L
  type UInt64 = Quad

  /** Two's-complement wrap to 64 and to 32 bits. */
  function WrapQ(x: int): Int64 {
    var u := x % TWO64;
    if u > MAX_Q then u - TWO64 else u
  }

  function WrapL(x: int): Int32 {
    var u := x % TWO32;
    if u > MAX_L then u - TWO32 else u
  }

  predicate FitsQ(x: int) { MIN_Q <= x <= MAX_Q }
  predicate FitsL(x: int) { MIN_L <= x <= MAX_L }

  function Abs(x: int): int { if x < 0 then -x else x }

  /** C++ division: truncates toward zero. */
  function TruncDiv(a: int, b: int): int
    requires b != 0
  {
    if a >= 0 then (if b > 0 then a / b else -(a / -b))
    else if b > 0 then -(-a / b)
    else -a / -b
  }

  // ---- Division facts ----

  lemma DivRange(n: int, d: int)
    requires n >= 0 && d > 0
    ensures 0 <= n - n / d * d < d
  {
    assert n == n / d * d + n % d;
  }

  lemma Negated(x: int, y: int)
    ensures -x * y == -(x * y) && x * -y == -(x * y) && -x * -y == x * y
  {
  }

  /** The quotient leaves a remainder smaller than the divisor. */
  lemma TruncDivBound(a: int, b: int)
    requires b != 0
    ensures -Abs(b) < a - TruncDiv(a, b) * b < Abs(b)
  {
    DivRange(Abs(a), Abs(b));
    var q := Abs(a) / Abs(b);
    Negated(q, b);
  }

  /** A nonzero multiple of a is at least as large as a. */
  lemma MultipleIsLarge(d: int, a: int)
    requires d != 0
    ensures Abs(d * a) >= Abs(a)
  {
    Negated(d, a);
    GrowsBy(Abs(d), Abs(a));
  }

  lemma GrowsBy(x: int, y: int)
    requires x >= 1 && y >= 0
    ensures x * y >= y
  {
    assert (x - 1) * y >= 0;
  }

  /** Exact quotients come back. */
  lemma TruncDivExact(a: int, b: int)
    requires a != 0
    ensures TruncDiv(a * b, a) == b
  {
    var q := TruncDiv(a * b, a);
    TruncDivBound(a * b, a);
    assert a * b - q * a == (b - q) * a;
    if b - q != 0 {
      MultipleIsLarge(b - q, a);
      assert false;
    }
  }

  /** Wrapping subtracts a multiple of 2^64. */
  lemma WrapQIs(x: int) returns (k: int)
    ensures WrapQ(x) == x - k * TWO64
    ensures k == 0 <==> FitsQ(x)
  {
    k := if x % TWO64 > MAX_Q then x / TWO64 + 1 else x / TWO64;
  }

  lemma WrapLIs(x: int) returns (k: int)
    ensures WrapL(x) == x - k * TWO32
    ensures k == 0 <==> FitsL(x)
  {
    k := if x % TWO32 > MAX_L then x / TWO32 + 1 else x / TWO32;
  }

  /** The quotient is truncated toward zero: the remainder has the sign of the
      dividend. */
  lemma TruncDivSign(a: int, b: int)
    requires b != 0
    ensures a >= 0 ==> a - TruncDiv(a, b) * b >= 0
    ensures a <= 0 ==> a - TruncDiv(a, b) * b <= 0
  {
    DivRange(Abs(a), Abs(b));
    Negated(Abs(a) / Abs(b), b);
  }

  // ---- Signed products ----

  /** Dividing the wrapped product by one factor returns the other exactly when
      nothing was wrapped away: a product off by a multiple of 2^64 is off by
      more than a remainder can hide. */
  lemma DivisionDetects(a: Int64, b: Int64)
    requires a != 0
    ensures TruncDiv(WrapQ(a * b), a) == b <==> FitsQ(a * b)
  {
    if FitsQ(a * b) {
      ExactReturns(a, b);
    } else {
      WrappedMisses(a, b);
    }
  }

  lemma ExactReturns(a: Int64, b: Int64)
    requires a != 0 && FitsQ(a * b)
    ensures TruncDiv(WrapQ(a * b), a) == b
  {
    var k := WrapQIs(a * b);
    assert WrapQ(a * b) == a * b;
    TruncDivExact(a, b);
  }

  /** A product that was wrapped does not divide back. */
  lemma WrappedMisses(a: Int64, b: Int64)
    requires a != 0 && !FitsQ(a * b)
    ensures TruncDiv(WrapQ(a * b), a) != b
  {
    var k := WrapQIs(a * b);
    TruncDivBound(WrapQ(a * b), a);
    TooFar(k, a);
  }

  /** A nonzero multiple of 2^64 is farther from zero than any divisor. */
  lemma TooFar(k: int, a: Int64)
    requires k != 0
    ensures !(-Abs(a) < -(k * TWO64) < Abs(a))
  {
  }

  /** The status record's overflow flag: helpers raise it and never lower it. */
  class IntStatus {
    var overflow: bool

    constructor ()
      ensures !overflow
    {
      overflow := false;
    }
  }

  /** MULQ. */
  method MulQ(a: Int64, b: Int64, status: IntStatus) returns (result: Int64)
    modifies status
    ensures result == WrapQ(a * b)
    ensures status.overflow == (old(status.overflow) || !FitsQ(a * b))
  {
    result := WrapQ(a * b);
    if a != 0 && b != 0 {
      DivisionDetects(a, b);
      if (a == -1 && b == MIN_Q) || (b == -1 && a == MIN_Q) {
        status.overflow := true;
      } else if TruncDiv(result, a) != b {
        status.overflow := true;
      }
    }
  }

  /** MULL: the 64-bit product against its own low half. */
  method MulL(a: Int32, b: Int32, status: IntStatus) returns (result: Int32)
    modifies status
    ensures result == WrapL(a * b)
    ensures status.overflow == (old(status.overflow) || !FitsL(a * b))
    ensures (a * b - result) % TWO32 == 0
  {
    var wide := a * b;
    result := WrapL(wide);
    var k := WrapLIs(wide);
    if wide != result {
      status.overflow := true;
    }
  }

  // ---- Unsigned ----

  lemma UnsignedDetects(a: UInt64, b: UInt64)
    requires b != 0
    ensures a * b >= 0
    ensures a * b % TWO64 / b == a <==> a * b < TWO64
  {
    var p := a * b;
    NonNegative(a, b);
    if p < TWO64 {
      TruncDivExact(b, a);
      assert b * a == p;
    } else if p % TWO64 / b == a {
      DivRange(p % TWO64, b);
      assert false;
    }
  }

  lemma NonNegative(x: int, y: int)
    requires x >= 0 && y >= 0
    ensures x * y >= 0
  {
  }

  method MulQU(a: UInt64, b: UInt64, status: IntStatus) returns (result: UInt64)
    modifies status
    ensures result == a * b % TWO64
    ensures status.overflow == (old(status.overflow) || a * b >= TWO64)
  {
    result := a * b % TWO64;
    if b != 0 {
      UnsignedDetects(a, b);
      if result / b != a {
        status.overflow := true;
      }
    }
  }

  method AddQU(a: UInt64, b: UInt64, status: IntStatus) returns (result: UInt64)
    modifies status
    ensures result == (a + b) % TWO64
    ensures status.overflow == (old(status.overflow) || a + b >= TWO64)
  {
    result := (a + b) % TWO64;
    if result < a {
      status.overflow := true;
    }
  }

  method SubQU(a: UInt64, b: UInt64, status: IntStatus) returns (result: UInt64)
    modifies status
    ensures result == (a - b) % TWO64
    ensures status.overflow == (old(status.overflow) || a - b < 0)
  {
    if a < b {
      status.overflow := true;
    }
    result := (a - b) % TWO64;
  }

  // ---- Signed sums: the flag and what it misses ----

  /** ADDQ flags every overflow except MIN + MIN, whose wrapped sum is zero. */
  method AddQ(a: Int64, b: Int64, status: IntStatus) returns (result: Int64)
    modifies status
    ensures result == WrapQ(a + b)
    ensures status.overflow ==
            (old(status.overflow) || (!FitsQ(a + b) && !(a == MIN_Q && b == MIN_Q)))
  {
    result := WrapQ(a + b);
    if (a > 0 && b > 0 && result < 0) || (a < 0 && b < 0 && result > 0) {
      status.overflow := true;
    }
  }

  /** SUBQ flags every overflow except 0 - MIN. */
  method SubQ(a: Int64, b: Int64, status: IntStatus) returns (result: Int64)
    modifies status
    ensures result == WrapQ(a - b)
    ensures status.overflow ==
            (old(status.overflow) || (!FitsQ(a - b) && !(a == 0 && b == MIN_Q)))
  {
    result := WrapQ(a - b);
    if (a > 0 && b < 0 && result < 0) || (a < 0 && b > 0 && result > 0) {
      status.overflow := true;
    }
  }

  method AddL(a: Int32, b: Int32, status: IntStatus) returns (result: Int32)
    modifies status
    ensures result == WrapL(a + b)
    ensures status.overflow ==
            (old(status.overflow) || (!FitsL(a + b) && !(a == MIN_L && b == MIN_L)))
  {
    result := WrapL(a + b);
    if (a > 0 && b > 0 && result < 0) || (a < 0 && b < 0 && result > 0) {
      status.overflow := true;
    }
  }

  method SubL(a: Int32, b: Int32, status: IntStatus) returns (result: Int32)
    modifies status
    ensures result == WrapL(a - b)
    ensures status.overflow ==
            (old(status.overflow) || (!FitsL(a - b) && !(a == 0 && b == MIN_L)))
  {
    result := WrapL(a - b);
    if (a > 0 && b < 0 && result < 0) || (a < 0 && b > 0 && result > 0) {
      status.overflow := true;
    }
  }

  // ---- UMULH, portable path ----

  /** The sum of the middle partial products, before it is cut to 64 bits. */
  function Middle(a: UInt64, b: UInt64): int {
    a % TWO32 * (b / TWO32) + a / TWO32 * (b % TWO32) + a % TWO32 * (b % TWO32) / TWO32
  }

  lemma Expand(n: int, ah: int, al: int, bh: int, bl: int)
    ensures (ah * n + al) * (bh * n + bl) == ah * bh * (n * n) + (al * bh + ah * bl) * n + al * bl
  {
    assert (ah * n + al) * (bh * n + bl)
        == (ah * n) * (bh * n) + (ah * n) * bl + al * (bh * n) + al * bl;
    assert (ah * n) * (bh * n) == ah * bh * (n * n);
    assert (ah * n) * bl == ah * bl * n;
    assert al * (bh * n) == al * bh * n;
  }

  /** The schoolbook carry chain, on the four partial products. */
  lemma CarryChain(p0: int, p1: int, p2: int, p3: int)
    requires p0 >= 0
    ensures (p3 * TWO64 + (p1 + p2) * TWO32 + p0) / TWO64 == p3 + (p1 + p2 + p0 / TWO32) / TWO32
  {
    var mid := p1 + p2 + p0 / TWO32;
    var low := mid % TWO32 * TWO32 + p0 % TWO32;
    assert p3 * TWO64 + (p1 + p2) * TWO32 + p0 == (p3 + mid / TWO32) * TWO64 + low;
    assert 0 <= low < TWO64;
  }

  /** The exact high word, through the exact middle sum. */
  lemma HighWord(a: UInt64, b: UInt64)
    ensures a * b / TWO64 == a / TWO32 * (b / TWO32) + Middle(a, b) / TWO32
  {
    var al, ah, bl, bh := a % TWO32, a / TWO32, b % TWO32, b / TWO32;
    assert a == ah * TWO32 + al && b == bh * TWO32 + bl;
    Expand(TWO32, ah, al, bh, bl);
    NonNegative(al, bl);
    CarryChain(al * bl, al * bh, ah * bl, ah * bh);
  }

  /** Factors below n have a product of at most (n - 1)^2. */
  lemma ProductBound(n: int, x: int, y: int)
    requires 0 <= x < n && 0 <= y < n
    ensures 0 <= x * y <= n * n - 2 * n + 1
  {
    NonNegative(x, y);
    NonNegative(n - 1 - x, y);
    NonNegative(n - 1, n - 1 - y);
    assert (n - 1 - x) * y == (n - 1) * y - x * y;
    assert (n - 1) * (n - 1 - y) == n * n - 2 * n + 1 - (n - 1) * y;
  }

  /** The middle sum is less than twice 2^64, so it wraps at most once. */
  lemma MiddleBound(a: UInt64, b: UInt64)
    ensures 0 <= Middle(a, b) < 2 * TWO64
    ensures 0 <= a / TWO32 * (b / TWO32) <= TWO64 - 2 * TWO32 + 1
    ensures 0 <= a * b / TWO64 < TWO64
  {
    ProductBound(TWO32, a % TWO32, b / TWO32);
    ProductBound(TWO32, a / TWO32, b % TWO32);
    ProductBound(TWO32, a % TWO32, b % TWO32);
    ProductBound(TWO32, a / TWO32, b / TWO32);
    ProductBound(TWO64, a, b);
  }

  /** The portable path: exact unless the 64-bit middle sum wraps, and then low
      by exactly 2^32. */
  method UmulhPortable(a: UInt64, b: UInt64) returns (r: UInt64)
    ensures Middle(a, b) < TWO64 ==> r == a * b / TWO64
    ensures Middle(a, b) >= TWO64 ==> r == a * b / TWO64 - TWO32
  {
    var aLo, aHi, bLo, bHi := a % TWO32, a / TWO32, b % TWO32, b / TWO32;
    var p0, p1, p2, p3 := aLo * bLo, aLo * bHi, aHi * bLo, aHi * bHi;
    var mid := (p1 + p2 + p0 / TWO32) % TWO64;
    r := (p3 + mid / TWO32) % TWO64;
    HighWord(a, b);
    MiddleBound(a, b);
    CutMiddle(Middle(a, b), p3);
  }

  /** Cutting the middle sum to 64 bits loses a carry worth 2^32. */
  lemma CutMiddle(mid: int, p3: int)
    requires 0 <= mid < 2 * TWO64 && 0 <= p3 && p3 + mid / TWO32 < TWO64
    ensures (p3 + mid % TWO64 / TWO32) % TWO64
         == p3 + mid / TWO32 - if mid < TWO64 then 0 else TWO32
  {
    if mid >= TWO64 {
      assert mid % TWO64 == mid - TWO64;
    }
  }

  /** The middle sum does wrap, for instance on the largest factors. */
  lemma MiddleCanWrap()
    ensures Middle(TWO64 - 1, TWO64 - 1) >= TWO64
  {
  }
}

/** Machine words, as the set of their one bits.  On this representation
    `a & b` is `a * b`, `a | b` is `a + b`, `a & ~b` is `a - b`, and the shifts
    are the functions below. */
module Words {

  /** A 64-bit word. */
  type Word = s: set<nat> | forall b | b in s :: b < 64

  /** A 64-bit word that uses its low eight bits only. */
  type Byte = s: set<nat> | forall b | b in s :: b < 8

  predicate Between(lo: nat, b: nat, hi: nat) {
    lo <= b < hi
  }

  /** The bits lo up to hi, hi excluded. */
  function Range(lo: nat, hi: nat): (r: set<nat>)
    ensures forall b :: b in r <==> lo <= b < hi
  {
    set b: nat | lo <= b < hi && Between(lo, b, hi)
  }

  /** `v << k` in 64 bits: bits moved past bit 63 are lost. */
  function Shl(v: Word, k: nat): (r: Word)
    ensures forall b :: b in r <==> k <= b < 64 && b - k in v
  {
    set b | b in Range(k, 64) && b - k in v
  }

  /** `v >> k`. */
  function Shr(v: Word, k: nat): (r: Word)
    ensures forall b :: b in r <==> 0 <= b && b + k in v
  {
    set b | b in Range(0, 64) && b + k in v
  }

  /** `(1 << k) - 1`. */
  function LowMask(k: nat): (r: Word)
    requires k <= 64
    ensures forall b :: b in r <==> 0 <= b < k
  {
    Range(0, k)
  }
}

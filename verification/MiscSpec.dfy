/** Layout of the Cchip MISC register (chipsetLib/Tsunami21272_CsrSpec.h) and
    the three word transforms that the Cchip applies to it under
    compare-and-swap (chipsetLib/TsunamiCchip.h). */
module MiscSpec {
  import opened Words

  /** The field of `width` bits whose least significant bit is bit `lsb`. */
  function Field(lsb: nat, width: nat): (f: Word)
    requires lsb + width <= 64
    ensures forall b :: b in f <==> lsb <= b < lsb + width
  {
    Range(lsb, lsb + width)
  }

  const DEVSUP := Field(40, 4) // WO
  const REV := Field(32, 8)    // RO
  const NXS := Field(29, 3)    // RO
  const NXM: nat := 28         // W1C
  const ACL: nat := 24         // WO
  const ABT := Field(20, 4)    // W1S
  const ABW := Field(16, 4)    // W1S
  const IPREQ := Field(12, 4)  // WO
  const IPINTR := Field(8, 4)  // W1C
  const ITINTR := Field(4, 4)  // W1C
  const CPUID := Field(0, 2)   // injected on read, never stored
  const RES := Field(44, 20) + Field(25, 3) + Field(2, 2)

  const W1C: Word := {NXM} + IPINTR + ITINTR
  const W1S: Word := ABT + ABW
  const WO: Word := DEVSUP + {ACL} + IPREQ

  /** The bits that are never stored. */
  const UNSTORED: Word := WO + CPUID + RES

  const MAX_CPUS: nat := 4
  type Cpu = n: nat | n < MAX_CPUS

  /** The word staged by miscWriteW1C for stored word m and written word w. */
  function WriteWord(m: Word, w: Word): Word {
    var staged := (m - w * W1C) + w * W1S;
    var tried := staged * ABT - m * ABT;
    var promoted := if tried != {} && m * ABT == {} then staged + Shr(tried, 4) * ABW else staged;
    var cleared := if ACL in w then promoted - (ABT + ABW) else promoted;
    var requested := if w * IPREQ != {} then cleared + Shr(w * IPREQ, 4) * IPINTR else cleared;
    (requested - WO) + m * WO
  }

  /** The word staged by one iteration of fireIntervalTimer, for CPU n. */
  function TimerWord(m: Word, n: Cpu): Word {
    m + {4 + n}
  }

  /** The word staged by latchNxm; NXS is deposited on the 0-to-1 edge only. */
  function NxmWord(m: Word, src: Word): Word {
    var next := m + {NXM};
    if NXM !in m then (next - NXS) + Shl(src * LowMask(3), 29) else next
  }

  /** The source code held in NXS. */
  function NxsOf(m: Word): Word {
    Shr(m * NXS, 29)
  }

  /** What a MISC write does to every single bit, as section 10.2.2.3 of the
      21272 manual words it: W1C bits fall where a one is written, IPINTR then
      rises where IPREQ is written, tries accumulate, the tries that find no
      earlier one win, ACL empties both arbitration fields whatever else is
      written, and no other bit moves. */
  lemma WriteBits(m: Word, w: Word, b: nat)
    ensures b in WriteWord(m, w) <==>
            if b == NXM || b in ITINTR then b in m && b !in w
            else if b in IPINTR then (b in m && b !in w) || b + 4 in w
            else if b in ABT then ACL !in w && (b in m || b in w)
            else if b in ABW then ACL !in w && (b in m || b in w || (m * ABT == {} && b + 4 in w))
            else b in m
  {
    if b in ABW && b + 4 in w && m * ABT == {} {
      var staged := (m - w * W1C) + w * W1S;
      assert b + 4 in staged * ABT - m * ABT;
    }
    if b in IPINTR && b + 4 in w {
      assert b + 4 in w * IPREQ;
    }
  }

  /** What latchNxm does to every single bit. */
  lemma NxmBits(m: Word, src: Word, b: nat)
    ensures b in NxmWord(m, src) <==>
            if b == NXM then true
            else if b in NXS && NXM !in m then b - 29 in src
            else b in m
  {
  }

  /** The same by bit number. */
  lemma WriteBitNumbers(m: Word, w: Word, b: nat)
    ensures b in WriteWord(m, w) <==>
            if b == 28 || 4 <= b < 8 then b in m && b !in w
            else if 8 <= b < 12 then (b in m && b !in w) || b + 4 in w
            else if 20 <= b < 24 then 24 !in w && (b in m || b in w)
            else if 16 <= b < 20 then
              24 !in w && (b in m || b in w || (b + 4 in w && forall t: nat | 20 <= t < 24 :: t !in m))
            else b in m
  {
    WriteBits(m, w, b);
    if t: nat :| 20 <= t < 24 && t in m {
      assert t in m * ABT;
    }
    if t :| t in m * ABT {
      assert 20 <= t < 24 && t in m;
    }
  }

  /** The bits that are never stored, by number. */
  lemma UnstoredBits(b: nat)
    ensures b in UNSTORED <==> b < 4 || 12 <= b < 16 || 24 <= b < 28 || 40 <= b < 64
    ensures b in REV <==> 32 <= b < 40
  {
  }
}

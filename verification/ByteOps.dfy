/** The Alpha byte-manipulation helpers (coreLib/alpha_int_byteops.h). */
module ByteOps {
  import opened Words

  /** `offset & 7`. */
  function Pos(offset: nat): (k: nat)
    ensures k < 8
  {
    offset % 8
  }

  // ---- MSKxL, MSKxH ----

  function Mskbl(v: Word, offset: nat): Word { v - Shl(LowMask(8), 8 * Pos(offset)) }
  function Mskwl(v: Word, offset: nat): Word { v - Shl(LowMask(16), 8 * Pos(offset)) }
  function Mskll(v: Word, offset: nat): Word { v - Shl(LowMask(32), 8 * Pos(offset)) }
  function Mskql(v: Word, offset: nat): Word {
    if Pos(offset) == 0 then {} else v * LowMask(8 * Pos(offset))
  }

  function Mskwh(v: Word, offset: nat): Word {
    var spill := Pos(offset) + 2 - 8;
    if spill <= 0 then v else v - LowMask(8 * spill)
  }
  function Msklh(v: Word, offset: nat): Word {
    var spill := Pos(offset) + 4 - 8;
    if spill <= 0 then v else v - LowMask(8 * spill)
  }
  function Mskqh(v: Word, offset: nat): Word {
    if Pos(offset) == 0 then v else v - LowMask(8 * Pos(offset))
  }

  // ---- EXTxL, EXTxH ----

  function Extbl(v: Word, offset: nat): Word { Shr(v, 8 * Pos(offset)) * LowMask(8) }
  function Extwl(v: Word, offset: nat): Word { Shr(v, 8 * Pos(offset)) * LowMask(16) }
  function Extll(v: Word, offset: nat): Word { Shr(v, 8 * Pos(offset)) * LowMask(32) }
  function Extql(v: Word, offset: nat): Word { Shr(v, 8 * Pos(offset)) }

  function Extwh(v: Word, offset: nat): Word {
    if Pos(offset) == 0 then {} else Shl(v, 8 * (8 - Pos(offset))) * LowMask(16)
  }
  function Extlh(v: Word, offset: nat): Word {
    if Pos(offset) == 0 then {} else Shl(v, 8 * (8 - Pos(offset))) * LowMask(32)
  }
  function Extqh(v: Word, offset: nat): Word {
    if Pos(offset) == 0 then {} else Shl(v, 8 * (8 - Pos(offset)))
  }

  // ---- INSxL, INSxH ----

  function Insbl(v: Word, offset: nat): Word { Shl(v * LowMask(8), 8 * Pos(offset)) }
  function Inswl(v: Word, offset: nat): Word { Shl(v * LowMask(16), 8 * Pos(offset)) }
  function Insll(v: Word, offset: nat): Word { Shl(v * LowMask(32), 8 * Pos(offset)) }
  function Insql(v: Word, offset: nat): Word { Shl(v, 8 * Pos(offset)) }

  function Inswh(v: Word, offset: nat): Word {
    if Pos(offset) == 0 then {} else Shr(v * LowMask(16), 8 * (8 - Pos(offset)))
  }
  function Inslh(v: Word, offset: nat): Word {
    if Pos(offset) == 0 then {} else Shr(v * LowMask(32), 8 * (8 - Pos(offset)))
  }
  function Insqh(v: Word, offset: nat): Word {
    if Pos(offset) == 0 then {} else Shr(v, 8 * (8 - Pos(offset)))
  }

  // ---- The unaligned idioms ----

  /** Operand sizes in bytes. */
  datatype Size = Two | Four | Eight
  {
    function Bits(): nat { match this case Two => 16 case Four => 32 case Eight => 64 }
  }

  /** The unaligned load idiom: EXTxL of the low quadword, EXTxH of the high
      one, ORed. */
  function Load(z: Size, q0: Word, q1: Word, offset: nat): Word {
    match z
    case Two => Extwl(q0, offset) + Extwh(q1, offset)
    case Four => Extll(q0, offset) + Extlh(q1, offset)
    case Eight => Extql(q0, offset) + Extqh(q1, offset)
  }

  /** The unaligned store idiom, on each quadword: MSKx ORed with INSx. */
  function StoreLow(z: Size, q0: Word, v: Word, offset: nat): Word {
    match z
    case Two => Mskwl(q0, offset) + Inswl(v, offset)
    case Four => Mskll(q0, offset) + Insll(v, offset)
    case Eight => Mskql(q0, offset) + Insql(v, offset)
  }

  function StoreHigh(z: Size, q1: Word, v: Word, offset: nat): Word {
    match z
    case Two => Mskwh(q1, offset) + Inswh(v, offset)
    case Four => Msklh(q1, offset) + Inslh(v, offset)
    case Eight => Mskqh(q1, offset) + Insqh(v, offset)
  }

  /** Bit b of the sixteen bytes q1:q0. */
  predicate PairBit(q0: Word, q1: Word, b: nat) {
    if b < 64 then b in q0 else b - 64 in q1
  }

  /** For every offset and size the load idiom reads the operand's bytes out of
      the pair, and zeros above them. */
  lemma LoadReads(z: Size, q0: Word, q1: Word, offset: nat, b: nat)
    ensures b in Load(z, q0, q1, offset) <==> b < z.Bits() && PairBit(q0, q1, 8 * Pos(offset) + b)
  {
  }

  /** r1:r0 is q1:q0 with the operand v in the bits from start on. */
  ghost predicate Replaced(bits: nat, start: nat, q0: Word, q1: Word, v: Word, r0: Word, r1: Word) {
    forall b: nat :: PairBit(r0, r1, b) <==>
                     if start <= b < start + bits then b - start in v else PairBit(q0, q1, b)
  }

  ghost predicate LowReplaced(bits: nat, start: nat, q0: Word, v: Word, r0: Word) {
    forall b: nat | b < 64 :: b in r0 <==> if start <= b < start + bits then b - start in v else b in q0
  }

  ghost predicate HighReplaced(bits: nat, start: nat, q1: Word, v: Word, r1: Word)
    requires start <= 64
  {
    forall b: nat | b < 64 :: b in r1 <==> if b + 64 < start + bits then b + 64 - start in v else b in q1
  }

  lemma StoreLowReplaces(z: Size, q0: Word, v: Word, offset: nat)
    ensures LowReplaced(z.Bits(), 8 * Pos(offset), q0, v, StoreLow(z, q0, v, offset))
  {
  }

  /** What MSKxH and INSxH leave of the high quadword, for an operand of any
      number of bytes n at any byte k. */
  lemma HighHalf(n: nat, k: nat, q1: Word, v: Word, kept: Word, spilled: Word)
    requires k < 8 && n <= 8
    requires kept == if k + n - 8 <= 0 then q1 else q1 - LowMask(8 * (k + n - 8))
    requires spilled == if k == 0 then {} else Shr(v * LowMask(8 * n), 8 * (8 - k))
    ensures HighReplaced(8 * n, 8 * k, q1, v, kept + spilled)
  {
    SpillBits(8 * n, 8 * k, v);
    Join(8 * n, 8 * k, q1, v, kept, spilled);
  }

  ghost predicate Spills(bits: nat, start: nat, v: Word, spilled: Word)
    requires start <= 64
  {
    forall b: nat | b < 64 :: b in spilled <==> b + 64 < start + bits && b + 64 - start in v
  }

  lemma SpillBits(bits: nat, start: nat, v: Word)
    requires start < 64 && bits <= 64
    ensures Spills(bits, start, v, if start == 0 then {} else Shr(v * LowMask(bits), 64 - start))
  {
  }

  lemma Join(bits: nat, start: nat, q1: Word, v: Word, kept: Word, spilled: Word)
    requires start < 64 && bits <= 64 && Spills(bits, start, v, spilled)
    requires kept == if start + bits <= 64 then q1 else q1 - LowMask(start + bits - 64)
    ensures HighReplaced(bits, start, q1, v, kept + spilled)
  {
  }

  lemma FullMask(v: Word)
    ensures v * LowMask(8 * 8) == v
  {
  }

  lemma StoreHighReplaces(z: Size, q1: Word, v: Word, offset: nat)
    ensures HighReplaced(z.Bits(), 8 * Pos(offset), q1, v, StoreHigh(z, q1, v, offset))
  {
    var k := Pos(offset);
    match z {
      case Two => HighHalf(2, k, q1, v, Mskwh(q1, offset), Inswh(v, offset));
      case Four => HighHalf(4, k, q1, v, Msklh(q1, offset), Inslh(v, offset));
      case Eight => FullMask(v); HighHalf(8, k, q1, v, Mskqh(q1, offset), Insqh(v, offset));
    }
  }

  lemma Stitch(bits: nat, start: nat, q0: Word, q1: Word, v: Word, r0: Word, r1: Word)
    requires start < 64 && bits <= 64
    requires LowReplaced(bits, start, q0, v, r0) && HighReplaced(bits, start, q1, v, r1)
    ensures Replaced(bits, start, q0, q1, v, r0, r1)
  {
  }

  /** For every offset and size the store idiom replaces exactly the operand's
      bytes of the pair. */
  lemma StoreReplaces(z: Size, q0: Word, q1: Word, v: Word, offset: nat)
    ensures Replaced(z.Bits(), 8 * Pos(offset), q0, q1, v, StoreLow(z, q0, v, offset), StoreHigh(z, q1, v, offset))
  {
    StoreLowReplaces(z, q0, v, offset);
    StoreHighReplaces(z, q1, v, offset);
    Stitch(z.Bits(), 8 * Pos(offset), q0, q1, v, StoreLow(z, q0, v, offset), StoreHigh(z, q1, v, offset));
  }

  /** Load after store returns the stored operand, and a load of the same size
      that does not overlap returns what it did before. */
  lemma LoadAfterStore(z: Size, q0: Word, q1: Word, v: Word, offset: nat)
    ensures Load(z, StoreLow(z, q0, v, offset), StoreHigh(z, q1, v, offset), offset) == v * LowMask(z.Bits())
  {
    StoreReplaces(z, q0, q1, v, offset);
    LoadReplaced(z, q0, q1, v, StoreLow(z, q0, v, offset), StoreHigh(z, q1, v, offset), offset);
  }

  lemma LoadReplaced(z: Size, q0: Word, q1: Word, v: Word, r0: Word, r1: Word, offset: nat)
    requires Replaced(z.Bits(), 8 * Pos(offset), q0, q1, v, r0, r1)
    ensures Load(z, r0, r1, offset) == v * LowMask(z.Bits())
  {
    forall b: nat ensures b in Load(z, r0, r1, offset) <==> b in v * LowMask(z.Bits()) {
      LoadReads(z, r0, r1, offset, b);
      assert b < z.Bits() ==> (PairBit(r0, r1, 8 * Pos(offset) + b) <==> b in v);
    }
  }

  lemma LoadElsewhere(z: Size, q0: Word, q1: Word, v: Word, at: nat, from: nat)
    requires 8 * Pos(from) + z.Bits() <= 8 * Pos(at) || 8 * Pos(at) + z.Bits() <= 8 * Pos(from)
    ensures Load(z, StoreLow(z, q0, v, at), StoreHigh(z, q1, v, at), from) == Load(z, q0, q1, from)
  {
    StoreReplaces(z, q0, q1, v, at);
    LoadUnreplaced(z, q0, q1, v, StoreLow(z, q0, v, at), StoreHigh(z, q1, v, at), at, from);
  }

  lemma LoadUnreplaced(z: Size, q0: Word, q1: Word, v: Word, r0: Word, r1: Word, at: nat, from: nat)
    requires Replaced(z.Bits(), 8 * Pos(at), q0, q1, v, r0, r1)
    requires 8 * Pos(from) + z.Bits() <= 8 * Pos(at) || 8 * Pos(at) + z.Bits() <= 8 * Pos(from)
    ensures Load(z, r0, r1, from) == Load(z, q0, q1, from)
  {
    forall b: nat ensures b in Load(z, r0, r1, from) <==> b in Load(z, q0, q1, from) {
      LoadReads(z, r0, r1, from, b);
      LoadReads(z, q0, q1, from, b);
      assert b < z.Bits() ==> (PairBit(r0, r1, 8 * Pos(from) + b) <==> PairBit(q0, q1, 8 * Pos(from) + b));
    }
  }

  /** The byte forms, one by one. */
  lemma ByteForms(v: Word, offset: nat, b: nat)
    requires b < 64
    ensures b in Extbl(v, offset) <==> b < 8 && 8 * Pos(offset) + b in v
    ensures b in Mskbl(v, offset) <==> b in v && b / 8 != Pos(offset)
    ensures b in Insbl(v, offset) <==> b / 8 == Pos(offset) && b % 8 in v
  {
    if b / 8 == Pos(offset) { assert b - 8 * Pos(offset) == b % 8; }
  }

  /** The byte forms never leave the low quadword. */
  lemma ByteAfterStore(q: Word, v: Word, offset: nat)
    ensures Extbl(Mskbl(q, offset) + Insbl(v, offset), offset) == v * LowMask(8)
    ensures forall b: nat | b < 64 && b / 8 != Pos(offset) :: b in Mskbl(q, offset) + Insbl(v, offset) <==> b in q
  {
    var r := Extbl(Mskbl(q, offset) + Insbl(v, offset), offset);
    forall b: nat ensures b in r <==> b in v * LowMask(8) {}
  }

  // ---- STQ_U merge ----

  method StqUMergeLane(q0In: Word, q1In: Word, src: Word, byteOffset: nat)
    returns (q0Out: Word, q1Out: Word, touchesQ1: bool)
    ensures q0Out == StoreLow(Eight, q0In, src, byteOffset)
    ensures q1Out == StoreHigh(Eight, q1In, src, byteOffset)
    ensures !touchesQ1 ==> q1Out == q1In
    ensures touchesQ1 <==> byteOffset % 8 != 0
  {
    var k := byteOffset % 8;
    if k == 0 {
      ShiftByNone(src);
      return src, q1In, false;
    }
    var sh := k * 8;
    var lowMask := LowMask(sh);
    q0Out := q0In * lowMask + Shl(src, sh);
    var shiftRight := (8 - k) * 8;
    var insertLow: Word := Shr(src, shiftRight) * lowMask;
    q1Out := (q1In - lowMask) + insertLow;
    touchesQ1 := true;
    MaskIdle(src, k);
  }

  lemma ShiftByNone(v: Word)
    ensures Shl(v, 0) == v
  {
  }

  /** The mask on the inserted low bytes clears nothing. */
  lemma MaskIdle(v: Word, k: nat)
    requires 0 < k < 8
    ensures Shr(v, (8 - k) * 8) * LowMask(k * 8) == Shr(v, (8 - k) * 8)
  {
  }

  // ---- ZAP, ZAPNOT ----

  method Zap(value: Word, mask: Word) returns (result: Word)
    ensures forall b: nat :: b in result <==> b in value && b / 8 !in mask
  {
    result := value;
    for i := 0 to 8
      invariant forall b: nat :: b in result <==> b in value && (b / 8 < i ==> b / 8 !in mask)
    {
      if i in mask {
        result := result - Shl(LowMask(8), 8 * i);
      }
    }
  }

  method ZapNot(value: Word, mask: Word) returns (result: Word)
    ensures forall b: nat :: b in result <==> b in value && b / 8 in mask
  {
    result := {};
    for i := 0 to 8
      invariant forall b: nat :: b in result <==> b in value && b / 8 in mask && b / 8 < i
    {
      if i in mask {
        result := result + value * Shl(LowMask(8), 8 * i);
      }
    }
  }
}

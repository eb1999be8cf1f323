/** The Cchip's register window: the registers that reach the interrupt state and
    the address windows (chipsetLib/TsunamiCchip.h:735-1149). */
module CchipCsr {
  import opened Words
  import opened Arithmetic
  import opened Numbers
  import opened MiscSpec
  import opened CchipOps
  import opened Aar

  type Aars = s: seq<Register> | |s| == ARRAYS
    witness [Register(0, false), Register(0, false), Register(0, false), Register(0, false)]

  const NO_BITS: Word := {}

  type Masks = s: seq<Word> | |s| == MAX_CPUS
    witness [NO_BITS, NO_BITS, NO_BITS, NO_BITS]

  /** m_aar and m_dim. */
  datatype Registers = Registers(aar: Aars, dim: Masks)

  /** MISC, AAR0-3, DIM0-3, DIR0-3 and DRIR; the rest store and return, or are
      read-only, and reach nothing here. */
  datatype Csr = Misc | Array(i: Cpu) | Mask(n: Cpu) | Request(n: Cpu) | Raw | Plain

  function CsrAt(off: nat): Csr {
    if off == 0x080 then Misc
    else if off == 0x100 then Array(0)
    else if off == 0x140 then Array(1)
    else if off == 0x180 then Array(2)
    else if off == 0x1C0 then Array(3)
    else if off == 0x200 then Mask(0)
    else if off == 0x240 then Mask(1)
    else if off == 0x600 then Mask(2)
    else if off == 0x640 then Mask(3)
    else if off == 0x280 then Request(0)
    else if off == 0x2C0 then Request(1)
    else if off == 0x680 then Request(2)
    else if off == 0x6C0 then Request(3)
    else if off == 0x300 then Raw
    else Plain
  }

  datatype Answer = Value(v: nat) | Unmodelled

  /** A read on behalf of CPU 0, which is the only one the bus names: the CPUID
      field of MISC reads as zero. */
  function ReadCsr(s: Shared, r: Registers, off: nat): Answer {
    match CsrAt(off)
    case Misc => Value(Number(s.misc - CPUID))
    case Array(i) => Value(r.aar[i].word)
    case Mask(n) => Value(Number(r.dim[n]))
    case Request(n) => Value(Number(s.drir * r.dim[n]))
    case Raw => Value(Number(s.drir))
    case Plain => Unmodelled
  }

  /** A write.  An array register is enabled exactly when it is not zero. */
  function WriteCsr(cpus: int, s: Shared, r: Registers, off: nat, v: Quad): (Shared, Registers) {
    match CsrAt(off)
    case Misc => (Perform(cpus, s, WriteMisc(Bits(v))), r)
    case Array(i) => (s, r.(aar := r.aar[i := Register(v, v != 0)]))
    case Mask(n) => (s, r.(dim := r.dim[n := Bits(v)]))
    case _ => (s, r)
  }

  /** What is written to an array or mask register reads back, and nothing that
      is written to any register but MISC moves the interrupt state. */
  lemma CsrReadBack(cpus: int, s: Shared, r: Registers, off: nat, v: Quad)
    ensures CsrAt(off).Array? || CsrAt(off).Mask? ==>
              var (t, q) := WriteCsr(cpus, s, r, off, v); ReadCsr(t, q, off) == Value(v)
    ensures !CsrAt(off).Misc? ==> WriteCsr(cpus, s, r, off, v).0 == s
  {
    NumberOfBits(v);
  }

  /** A store to MISC is a MISC write, and leaves the other registers alone. */
  lemma MiscStoreWrites(cpus: int, s: Shared, r: Registers, v: Quad)
    ensures WriteCsr(cpus, s, r, 0x80, v) == (Perform(cpus, s, WriteMisc(Bits(v))), r)
  {
  }

  /** A store of v to array register i opens exactly the window that v encodes,
      and leaves the other three, the masks and the interrupt state alone. */
  lemma ArrayStoreOpens(cpus: int, s: Shared, r: Registers, i: nat, v: Quad, pa: nat)
    requires i < 4
    ensures var (t, q) := WriteCsr(cpus, s, r, 0x100 + 0x40 * i, v);
            && (InWindow(q.aar[i], pa) <==> SizeOf(v) != 0 && BaseOf(v) <= pa < BaseOf(v) + SizeOf(v))
            && (forall j | 0 <= j < 4 && j != i :: q.aar[j] == r.aar[j])
            && q.dim == r.dim && t == s
  {
    assert CsrAt(0x100 + 0x40 * i) == Array(i);
    EnabledIfNonzero(v, pa);
  }

  /** A zero word encodes no window, so enabling the others loses none. */
  lemma EnabledIfNonzero(v: nat, pa: nat)
    ensures InWindow(Register(v, v != 0), pa) <==> SizeOf(v) != 0 && BaseOf(v) <= pa < BaseOf(v) + SizeOf(v)
  {
    if v == 0 { assert v / 4096 % 16 == 0; }
  }

  /** The register offset of a CPU's interrupt mask; its DIR register is 0x80
      further on. */
  function MaskOffset(n: Cpu): nat { if n < 2 then 0x200 + 0x40 * n else 0x580 + 0x40 * n }

  /** A store to a CPU's mask register sets exactly that mask, bit by bit. */
  lemma MaskStoreSets(cpus: int, s: Shared, r: Registers, n: Cpu, v: Quad)
    ensures var (t, q) := WriteCsr(cpus, s, r, MaskOffset(n), v);
            && (forall b: nat :: b in q.dim[n] <==> b < 64 && Bit(v, b))
            && (forall k: Cpu | k != n :: q.dim[k] == r.dim[k])
            && q.aar == r.aar && t == s
  {
  }

  /** What the registers read, bit by bit, at their offsets: MISC without its
      CPUID field, DRIR, the masks, and each DIR as its mask's share of DRIR. */
  lemma RegisterBits(s: Shared, r: Registers, n: Cpu, b: nat)
    ensures var misc := ReadCsr(s, r, 0x80);
            misc.Value? && misc.v < TWO64 && (b < 64 ==> (Bit(misc.v, b) <==> b in s.misc && b >= 2))
    ensures var drir := ReadCsr(s, r, 0x300);
            drir.Value? && drir.v < TWO64 && (b < 64 ==> (Bit(drir.v, b) <==> b in s.drir))
    ensures var dim := ReadCsr(s, r, MaskOffset(n));
            dim.Value? && dim.v < TWO64 && (b < 64 ==> (Bit(dim.v, b) <==> b in r.dim[n]))
    ensures var dir := ReadCsr(s, r, MaskOffset(n) + 0x80);
            dir.Value? && dir.v < TWO64 && (b < 64 ==> (Bit(dir.v, b) <==> b in s.drir && b in r.dim[n]))
  {
    NumberBits(s.misc - CPUID, b);
    NumberBits(s.drir, b);
    NumberBits(r.dim[n], b);
    NumberBits(s.drir * r.dim[n], b);
  }

  lemma NumberBits(w: Word, b: nat)
    ensures Number(w) < TWO64 && (b < 64 ==> (Bit(Number(w), b) <==> b in w))
  {
    BitsOfNumber(w);
    assert b in Bits(Number(w)) <==> b in w;
  }

  /** What a CPU reads from its DIR register is zero exactly when no line is both
      raised and admitted. */
  lemma RequestReadsZero(s: Shared, r: Registers, off: nat)
    requires CsrAt(off).Request?
    ensures ReadCsr(s, r, off) == Value(0) <==>
            forall line: nat :: !(line in s.drir && line in r.dim[CsrAt(off).n])
  {
    var w := s.drir * r.dim[CsrAt(off).n];
    assert forall line: nat :: line in w <==> line in s.drir && line in r.dim[CsrAt(off).n];
    NoBits(64);
    BitsOfNumber(w);
    BitsOfNumber(NO_BITS);
    assert ReadCsr(s, r, off) == Value(Number(w));
    if Number(w) == 0 {
      assert w == Bits(Number(w)) == Bits(Number(NO_BITS)) == NO_BITS;
    }
    if forall line: nat :: !(line in s.drir && line in r.dim[CsrAt(off).n]) {
      assert w == NO_BITS;
    }
  }

  lemma {:induction false} NoBits(k: nat)
    ensures NumberBelow(NO_BITS, k) == 0
    decreases k
  {
    if k > 0 { NoBits(k - 1); }
  }
}

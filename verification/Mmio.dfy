/** The I/O rung of the bus: which access reaches the Cchip's registers, the
    interrupt-acknowledge window or an 8259 port, and what it does there
    (chipsetLib/TsunamiChipset.h:155-265). */
module Mmio {
  import opened Words
  import opened Arithmetic
  import opened Numbers
  import opened CchipOps
  import opened CchipCsr
  import opened PicModel
  import opened Chipset

  const MMIO_START: nat := 0x800_0000_0000

  // Offsets from MMIO_START.
  const SPARSE_IO: nat := 0x1_4000_0000
  const SPARSE_IO_END: nat := 0x1_8000_0000
  const CCHIP: nat := 0x1_A000_0000
  const CCHIP_END: nat := 0x1_B000_0000
  const IACK: nat := 0x1_F800_0000
  const IO_DENSE: nat := 0x1_FC00_0000
  const CONFIG: nat := 0x1_FE00_0000

  /** Where an I/O access goes: the acknowledge window, a Cchip register, an I/O
      port, or a device that reaches nothing in this model. */
  datatype Target = Acknowledge | Csr(off: nat) | Port(port: nat) | Elsewhere

  /** Sparse I/O space carries the port in address bits <20:5>, dense I/O space
      in bits <15:0>. */
  function StoreTarget(pa: nat): Target
    requires pa >= MMIO_START
  {
    var off := pa - MMIO_START;
    if CCHIP <= off < CCHIP_END then Csr(off - CCHIP)
    else if SPARSE_IO <= off < SPARSE_IO_END then Port((off - SPARSE_IO) / 32 % 0x1_0000)
    else if IO_DENSE <= off < CONFIG then Port((off - IO_DENSE) % 0x1_0000)
    else Elsewhere
  }

  /** Only a load finds the acknowledge window. */
  function LoadTarget(pa: nat): Target
    requires pa >= MMIO_START
  {
    if pa == MMIO_START + IACK then Acknowledge else StoreTarget(pa)
  }

  /** The ports that are registered for the 8259 pair. */
  predicate PicPort(port: nat) {
    || port == MASTER_BASE || port == MASTER_BASE + 1
    || port == SLAVE_BASE || port == SLAVE_BASE + 1
    || port == ELCR_BASE || port == ELCR_BASE + 1
  }

  /** The low byte of a value, as bits. */
  function LowByte(v: nat): Byte {
    set b: nat | b in Range(0, 8) && Bit(v, b)
  }

  /** What I/O can change: the glue with PIC and Cchip, and the Cchip's address
      and mask registers. */
  datatype Io = Io(glue: Glue, regs: Registers)

  /** A value, or one that a device outside this model supplies. */
  function LoadIo(cfg: Config, io: Io, pa: nat, d: Devices): (Io, Answer)
    requires cfg.Valid() && pa >= MMIO_START
  {
    match LoadTarget(pa)
    case Acknowledge =>
      var (g, vec) := Iack(cfg, io.glue, d);
      (io.(glue := g), Value(Number(vec)))
    case Csr(off) => (io, ReadCsr(io.glue.cchip, io.regs, off))
    case Port(port) =>
      if PicPort(port) then
        var (pic, b) := ReadPort(io.glue.pic, port);
        (io.(glue := io.glue.(pic := pic)), Value(Number(b)))
      else (io, Unmodelled)
    case Elsewhere => (io, Unmodelled)
  }

  function StoreIo(cfg: Config, io: Io, pa: nat, v: Quad): Io
    requires pa >= MMIO_START
  {
    match StoreTarget(pa)
    case Csr(off) =>
      var (s, r) := WriteCsr(cfg.cpus, io.glue.cchip, io.regs, off, v);
      Io(io.glue.(cchip := s), r)
    case Port(port) =>
      if PicPort(port) then io.(glue := io.glue.(pic := WritePort(io.glue.pic, port, LowByte(v)))) else io
    case _ => io
  }

  /** The store goes to MISC. */
  predicate ToMisc(pa: nat) { pa == MMIO_START + CCHIP + 0x080 }

  /** The store goes to an array register. */
  predicate ToArray(pa: nat) {
    || pa == MMIO_START + CCHIP + 0x100 || pa == MMIO_START + CCHIP + 0x140
    || pa == MMIO_START + CCHIP + 0x180 || pa == MMIO_START + CCHIP + 0x1C0
  }

  lemma ToMiscIs(pa: nat)
    requires pa >= MMIO_START
    ensures ToMisc(pa) <==> StoreTarget(pa).Csr? && CsrAt(StoreTarget(pa).off).Misc?
    ensures ToArray(pa) <==> StoreTarget(pa).Csr? && CsrAt(StoreTarget(pa).off).Array?
  {
  }

  /** What an I/O store may move: the interrupt state by a store to MISC, the
      address windows by a store to an array register, and nothing else of
      these. */
  lemma StoreMoves(cfg: Config, io: Io, pa: nat, v: Quad)
    requires pa >= MMIO_START
    ensures StoreIo(cfg, io, pa, v).glue.cchip ==
            if ToMisc(pa) then Perform(cfg.cpus, io.glue.cchip, WriteMisc(Bits(v))) else io.glue.cchip
    ensures !ToArray(pa) ==> StoreIo(cfg, io, pa, v).regs.aar == io.regs.aar
    ensures StoreIo(cfg, io, pa, v).glue.level == io.glue.level
  {
    ToMiscIs(pa);
  }

  /** What an I/O load may move: the interrupt lines by an acknowledge. */
  lemma LoadMoves(cfg: Config, io: Io, pa: nat, d: Devices)
    requires cfg.Valid() && pa >= MMIO_START
    ensures LoadIo(cfg, io, pa, d).0.regs == io.regs
    ensures pa == MMIO_START + IACK ==> LoadIo(cfg, io, pa, d).0.glue == Iack(cfg, io.glue, d).0
    ensures pa != MMIO_START + IACK ==>
              LoadIo(cfg, io, pa, d).0.glue == io.glue.(pic := LoadIo(cfg, io, pa, d).0.glue.pic)
  {
  }
}

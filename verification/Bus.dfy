/** The bus arbiter: address ladder, data path and nonexistent memory
    (chipsetLib/TsunamiChipset.cpp:70-261). */
module Bus {
  import opened Arithmetic
  import opened CchipCsr
  import opened Aar
  import opened Memory
  import opened Mmio
  import F = FlashModel
  import P = FlashPersist
  import D = FlashDevice
  import opened Chipset

  const SCRATCH_BASE: nat := 0xFFF_FFF0_0000
  const SCRATCH_SIZE: nat := 0x10_0000
  const FLASH_BASE: nat := 0x801_0000_0000
  const FLASH_WINDOW: nat := 0x800_0000
  const TIG_BASE: nat := 0x801_3000_0000
  const TIG_END: nat := 0x801_4000_0000
  const TRACE_ARM: nat := 0x801_3000_0FF8

  datatype Claimant = Scratch | Dram | FlashRom | TraceArm | Tig | Mmio | Nobody

  predicate ScratchAt(pa: nat) { SCRATCH_BASE <= pa < SCRATCH_BASE + SCRATCH_SIZE }
  predicate FlashAt(pa: nat) { FLASH_BASE <= pa < FLASH_BASE + FLASH_WINDOW }
  predicate TigAt(pa: nat) { TIG_BASE <= pa < TIG_END }

  /** The ladder, in the code's order. */
  ghost function Decode(regs: seq<Register>, pa: nat): Claimant {
    if ScratchAt(pa) then Scratch
    else if IsDram(regs, pa) then Dram
    else if FlashAt(pa) then FlashRom
    else if pa == TRACE_ARM then TraceArm
    else if TigAt(pa) then Tig
    else if pa >= MMIO_START then Mmio
    else Nobody
  }

  // ---- The order of the ladder ----

  /** A rung's own address test, whatever else claims the address. */
  ghost predicate Claims(regs: seq<Register>, pa: nat, c: Claimant) {
    match c
    case Scratch => ScratchAt(pa)
    case Dram => IsDram(regs, pa)
    case FlashRom => FlashAt(pa)
    case TraceArm => pa == TRACE_ARM
    case Tig => TigAt(pa)
    case Mmio => pa >= MMIO_START
    case Nobody => false
  }

  /** The rungs tried in an arbitrary order. */
  ghost function Ladder(order: seq<Claimant>, regs: seq<Register>, pa: nat): Claimant
    decreases order
  {
    if order == [] then Nobody
    else if Claims(regs, pa, order[0]) then order[0]
    else Ladder(order[1..], regs, pa)
  }

  /** Where a rung first stands in an order. */
  function Place(order: seq<Claimant>, c: Claimant): (k: nat)
    ensures k <= |order|
    ensures c in order <==> k < |order|
  {
    if order == [] then 0 else if order[0] == c then 0 else 1 + Place(order[1..], c)
  }

  predicate Before(order: seq<Claimant>, a: Claimant, b: Claimant) { Place(order, a) < Place(order, b) }

  /** Whatever words firmware writes into the array registers, DRAM stays below
      the I/O space: 2047 * 16 MB plus 16 MB << 14 is less than 2^43. */
  lemma DramBelowMmio(regs: seq<Register>, pa: nat)
    requires IsDram(regs, pa)
    ensures pa < MMIO_START
  {
    var i :| 0 <= i < |regs| && InWindow(regs[i], pa);
    var asiz := regs[i].word / 4096 % 16;
    assert Pow2(14) == 16384;
    if asiz - 1 < 14 { Pow2Grows(asiz - 1, 14); }
  }

  predicate Storage(c: Claimant) { c.Scratch? || c.Dram? || c.FlashRom? || c.Tig? }

  /** For every setting of the array registers PAL scratch, DRAM, flash and TIG
      are pairwise disjoint, and DRAM is clear of the I/O space. */
  lemma Apart(regs: seq<Register>, pa: nat, a: Claimant, b: Claimant)
    requires Claims(regs, pa, a) && Claims(regs, pa, b)
    ensures Storage(a) && Storage(b) ==> a == b
    ensures a.Dram? ==> b.Dram?
  {
    if IsDram(regs, pa) { DramBelowMmio(regs, pa); }
  }

  /** The first rung that claims wins. */
  lemma {:induction false} LadderIs(order: seq<Claimant>, regs: seq<Register>, pa: nat, c: Claimant)
    requires c in order && Claims(regs, pa, c)
    requires forall d | Claims(regs, pa, d) && d != c :: Before(order, c, d)
    ensures Ladder(order, regs, pa) == c
    decreases order
  {
    if order[0] != c {
      forall d | Claims(regs, pa, d) && d != c ensures Before(order[1..], c, d) {
        assert Before(order, c, d);
      }
      LadderIs(order[1..], regs, pa, c);
    }
  }

  lemma {:induction false} LadderFirst(order: seq<Claimant>, regs: seq<Register>, pa: nat, d: Claimant)
    requires d in order && Claims(regs, pa, d)
    ensures var c := Ladder(order, regs, pa); c != d ==> Before(order, c, d)
    decreases order
  {
    if !Claims(regs, pa, order[0]) {
      LadderFirst(order[1..], regs, pa, d);
      LadderClaims(order[1..], regs, pa, d);
    }
  }

  lemma {:induction false} LadderClaims(order: seq<Claimant>, regs: seq<Register>, pa: nat, d: Claimant)
    requires d in order && Claims(regs, pa, d)
    ensures Claims(regs, pa, Ladder(order, regs, pa))
    decreases order
  {
    if !Claims(regs, pa, order[0]) { LadderClaims(order[1..], regs, pa, d); }
  }

  lemma {:induction false} LadderNone(order: seq<Claimant>, regs: seq<Register>, pa: nat)
    requires forall c | c in order :: !Claims(regs, pa, c)
    ensures Ladder(order, regs, pa) == Nobody
    decreases order
  {
    if order != [] {
      assert order[0] in order;
      LadderNone(order[1..], regs, pa);
    }
  }

  /** The order names every rung. */
  predicate Full(order: seq<Claimant>) {
    && Scratch in order && Dram in order && FlashRom in order
    && TraceArm in order && Tig in order && Mmio in order
  }

  ghost predicate SameLadder(order: seq<Claimant>) {
    forall regs: seq<Register>, pa: nat :: Ladder(order, regs, pa) == Decode(regs, pa)
  }

  /** The narrower window first, wherever two windows overlap. */
  predicate NarrowFirst(order: seq<Claimant>) {
    && Before(order, TraceArm, Tig)
    && Before(order, Scratch, Mmio) && Before(order, FlashRom, Mmio) && Before(order, Tig, Mmio)
  }

  /** An order of the rungs decodes every address as the code does, for every
      setting of the array registers, if and only if the trace register comes
      before the TIG window, and scratch, flash and TIG before the I/O window.
      DRAM may stand anywhere. */
  lemma OrderIff(order: seq<Claimant>)
    requires Full(order)
    ensures SameLadder(order) <==> NarrowFirst(order)
  {
    if NarrowFirst(order) {
      forall regs: seq<Register>, pa: nat ensures Ladder(order, regs, pa) == Decode(regs, pa) {
        NarrowDecodes(order, regs, pa);
      }
    }
    if SameLadder(order) {
      var none: seq<Register> := [];
      LadderFirst(order, none, TRACE_ARM, Tig);
      LadderFirst(order, none, SCRATCH_BASE, Mmio);
      LadderFirst(order, none, FLASH_BASE, Mmio);
      LadderFirst(order, none, TIG_BASE, Mmio);
      assert Ladder(order, none, TRACE_ARM) == Decode(none, TRACE_ARM) == TraceArm;
      assert Ladder(order, none, SCRATCH_BASE) == Decode(none, SCRATCH_BASE) == Scratch;
      assert Ladder(order, none, FLASH_BASE) == Decode(none, FLASH_BASE) == FlashRom;
      assert Ladder(order, none, TIG_BASE) == Decode(none, TIG_BASE) == Tig;
    }
  }

  lemma NarrowDecodes(order: seq<Claimant>, regs: seq<Register>, pa: nat)
    requires Full(order) && NarrowFirst(order)
    ensures Ladder(order, regs, pa) == Decode(regs, pa)
  {
    var c := Decode(regs, pa);
    if IsDram(regs, pa) { DramBelowMmio(regs, pa); }
    if c.Nobody? {
      LadderNone(order, regs, pa);
    } else {
      LadderIs(order, regs, pa, c);
    }
  }

  // ---- The data path ----

  type ScratchPad = s: seq<Cell> | |s| == SCRATCH_SIZE
    witness seq(SCRATCH_SIZE, i => 0)

  /** Everything a bus access can reach here: PAL scratch, guest memory, flash,
      and by way of the I/O window the Cchip and the PIC. */
  datatype State = State(scratch: ScratchPad, store: Store, disk: P.Disk, io: Io)
  {
    /** The array registers that decode an access at this moment. */
    function Aars(): Aars { io.regs.aar }
  }

  /** A bus error, a value, a value that a device outside this model supplies, or
      a copy past the end of the code's eight-byte local. */
  datatype Reply = BusError | Data(v: nat) | Routed | Overrun

  function AsReply(a: Answer): Reply {
    match a
    case Value(v) => Data(v)
    case Unmodelled => Routed
  }

  predicate LegalWidth(width: nat) { width == 1 || width == 2 || width == 4 || width == 8 }

  const ALL_ONES: nat := 0xFFFF_FFFF_FFFF_FFFF
  const INT64_MAX: nat := 0x7FFF_FFFF_FFFF_FFFF

  function FlashOffset(pa: nat): nat
    requires FlashAt(pa)
  {
    (pa - FLASH_BASE) / 64
  }

  function ScratchRead(s: ScratchPad, off: nat, width: nat): Reply {
    if off + width > SCRATCH_SIZE then Data(0)
    else if width > 8 then Overrun
    else Data(Memory.Value(s[off..off + width]))
  }

  function ScratchWrite(s: ScratchPad, off: nat, width: nat, v: nat): ScratchPad {
    if off + width > SCRATCH_SIZE then s
    else s[..off] + LowBytes(v, width) + s[off + width..]
  }

  /** TsunamiChipset::reportNxm with source code 0. */
  function Report(b: State): State {
    b.(io := b.io.(glue := b.io.glue.(cchip := CchipRuns.ReportNxm(b.io.glue.cchip, {}))))
  }

  /** read(), with the device levels that an acknowledge would find. */
  ghost function ReadSpec(cfg: Config, b: State, pa: nat, width: nat, d: Devices): (State, Reply)
    requires cfg.Valid()
  {
    match Decode(b.Aars(), pa)
    case Scratch => (b, ScratchRead(b.scratch, pa - SCRATCH_BASE, width))
    case Dram => (b, if LegalWidth(width) then Data(Memory.Value(GetBytes(b.store, pa, width))) else BusError)
    case FlashRom =>
      (b.(disk := P.Next(b.disk, P.Bus(0, F.R(FlashOffset(pa))))),
       Data(F.ReadValue(b.disk.flash, FlashOffset(pa))))
    case TraceArm => (b, Data(INT64_MAX))
    case Tig => (b, Routed)
    case Mmio =>
      var (io, a) := LoadIo(cfg, b.io, pa, d);
      (b.(io := io), AsReply(a))
    case Nobody => (Report(b), Data(ALL_ONES))
  }

  ghost function WriteSpec(cfg: Config, b: State, pa: nat, v: Quad, width: nat): (State, Reply) {
    if !LegalWidth(width) then (b, BusError)
    else
      (match Decode(b.Aars(), pa)
       case Scratch => b.(scratch := ScratchWrite(b.scratch, pa - SCRATCH_BASE, width, v))
       case Dram => b.(store := PutBytes(b.store, pa, LowBytes(v, width)))
       case FlashRom => b.(disk := P.Next(b.disk, P.Bus(0, F.W(FlashOffset(pa), v % 256))))
       case TraceArm => b
       case Tig => b
       case Mmio => b.(io := StoreIo(cfg, b.io, pa, v))
       case Nobody => Report(b),
       Data(0))
  }

  /** The bus error replies of a load and a store of the same address and width
      agree if and only if the width is legal or the address is DRAM. */
  lemma SameErrorIff(cfg: Config, b: State, pa: nat, v: Quad, width: nat, d: Devices)
    requires cfg.Valid()
    ensures (ReadSpec(cfg, b, pa, width, d).1 == BusError <==> WriteSpec(cfg, b, pa, v, width).1 == BusError) <==>
            LegalWidth(width) || IsDram(b.Aars(), pa)
  {
    if IsDram(b.Aars(), pa) { DramBelowMmio(b.Aars(), pa); }
  }

  /** A load copies past the code's eight-byte local if and only if it is wider
      than that and lies inside PAL scratch. */
  lemma OverrunIff(cfg: Config, b: State, pa: nat, width: nat, d: Devices)
    requires cfg.Valid()
    ensures ReadSpec(cfg, b, pa, width, d).1 == Overrun <==>
            ScratchAt(pa) && width > 8 && pa + width <= SCRATCH_BASE + SCRATCH_SIZE
  {
  }

  /** The load after a store to guest memory returns the value if and only if
      every nonzero byte of it has a page under it. */
  lemma DramReadBackIff(cfg: Config, b: State, pa: nat, v: Quad, width: nat, d: Devices)
    requires cfg.Valid() && LegalWidth(width) && IsDram(b.Aars(), pa)
    ensures var after := WriteSpec(cfg, b, pa, v, width).0;
            ReadSpec(cfg, after, pa, width, d) == (after, Data(v % Pow256(width))) <==>
            forall i | 0 <= i < width :: Backed(b.store, pa + i) || LowBytes(v, width)[i] == 0
  {
    DramBelowMmio(b.Aars(), pa);
    LoadAfterStoreIff(b.store, pa, v, width);
  }

  /** The load after a store to PAL scratch returns the value if and only if the
      access lies inside it or the value is zero: across its end the store is
      dropped and the load returns zero. */
  lemma ScratchReadBackIff(cfg: Config, b: State, pa: nat, v: Quad, width: nat, d: Devices)
    requires cfg.Valid() && LegalWidth(width) && ScratchAt(pa)
    ensures var after := WriteSpec(cfg, b, pa, v, width).0;
            ReadSpec(cfg, after, pa, width, d) == (after, Data(v % Pow256(width))) <==>
            pa + width <= SCRATCH_BASE + SCRATCH_SIZE || v % Pow256(width) == 0
  {
    var off := pa - SCRATCH_BASE;
    ValueOfLowBytes(v, width);
    if off + width <= SCRATCH_SIZE {
      assert ScratchWrite(b.scratch, off, width, v)[off..off + width] == LowBytes(v, width);
    }
  }

  /** A store changes only the storage of its own claimant; the array registers
      only by a store to one of them, and the Cchip's interrupt state only by a
      store to MISC or to nonexistent memory. */
  lemma StoreKeepsOthers(cfg: Config, b: State, pa: nat, v: Quad, width: nat)
    ensures var after, c := WriteSpec(cfg, b, pa, v, width).0, Decode(b.Aars(), pa);
            && (!c.Scratch? ==> after.scratch == b.scratch)
            && (!c.Dram? ==> after.store == b.store)
            && (!c.FlashRom? ==> after.disk == b.disk)
            && (!c.Mmio? && !c.Nobody? ==> after.io == b.io)
            && (!ToArray(pa) ==> after.Aars() == b.Aars())
            && (!ToMisc(pa) && !c.Nobody? ==> after.io.glue.cchip == b.io.glue.cchip)
  {
    if Decode(b.Aars(), pa).Mmio? { StoreMoves(cfg, b.io, pa, v); }
  }

  /** A DRAM load that the store does not overlap returns what it did before if
      and only if its address is still DRAM afterwards, or it read all ones: a
      store to an array register can close the window, and nonexistent memory
      reads as all ones. */
  lemma LoadUndisturbedIff(cfg: Config, b: State, pa: nat, v: Quad, width: nat, from: nat, n: nat, d: Devices)
    requires cfg.Valid() && LegalWidth(n) && IsDram(b.Aars(), from) && (from + n <= pa || pa + width <= from)
    ensures var after := WriteSpec(cfg, b, pa, v, width).0;
            ReadSpec(cfg, after, from, n, d).1 == ReadSpec(cfg, b, from, n, d).1 <==>
            IsDram(after.Aars(), from) || ReadSpec(cfg, b, from, n, d).1 == Data(ALL_ONES)
    ensures !ToArray(pa) ==> IsDram(WriteSpec(cfg, b, pa, v, width).0.Aars(), from)
  {
    DramBelowMmio(b.Aars(), from);
    StoreKeepsOthers(cfg, b, pa, v, width);
    Memory.LoadElsewhere(b.store, pa, LowBytes(v, width), from, n);
  }

  // ---- Windows and pages ----

  /** Every address that the reset windows give to DRAM has a page under it. */
  ghost predicate AllBacked(mem: nat, typhoon: bool) {
    forall pa: nat | IsDram(ResetAll(mem, typhoon), pa) :: pa / PAGE < (mem + PAGE - 1) / PAGE
  }

  /** That holds if and only if the last memory chunk is empty or at least 16 MB.
      Below that the window reaches far past the memory: stores there vanish and
      loads return zero, and no NXM is reported. */
  lemma AllBackedIff(mem: nat, typhoon: bool)
    ensures AllBacked(mem, typhoon) <==> LastChunk(mem, typhoon) == 0 || LastChunk(mem, typhoon) >= MB16
  {
    var c, n := LastChunk(mem, typhoon), LastIndex(mem, typhoon);
    if c == 0 || c >= MB16 {
      forall pa: nat | IsDram(ResetAll(mem, typhoon), pa) ensures pa / PAGE < (mem + PAGE - 1) / PAGE {
        var i :| 0 <= i < ARRAYS && InWindow(ResetAll(mem, typhoon)[i], pa);
        ResetWindowsDisjoint(mem, typhoon, i, i, pa);
      }
    } else {
      ChunkIs(mem, typhoon, n);
      ResetDecodes(mem, typhoon, n);
      var pa := Start(typhoon, n) + GB - 1;
      assert InWindow(ResetAll(mem, typhoon)[n], pa);
      assert IsDram(ResetAll(mem, typhoon), pa);
      assert mem == Start(typhoon, n) + c;
      PastPages(mem, pa);
    }
  }

  lemma PastPages(mem: nat, pa: nat)
    requires pa >= mem + PAGE
    ensures pa / PAGE >= (mem + PAGE - 1) / PAGE
  {
  }

  // ---- The object ----

  class Arbiter {
    const memory: GuestMemory
    const flash: D.FlashRom
    const chipset: TsunamiChipset
    var scratch: ScratchPad

    ghost predicate Valid()
      reads this, flash
    {
      flash.Valid() && chipset.Build().Valid()
    }

    ghost function View(): State
      requires Valid()
      reads this, memory, flash, flash.data, chipset, chipset.cchip, chipset.pic
    {
      State(scratch, memory.State(), flash.State(), Io(chipset.State(), chipset.cchip.Windows()))
    }

    constructor (memory: GuestMemory, flash: D.FlashRom, chipset: TsunamiChipset)
      requires flash.Valid() && chipset.Build().Valid()
      ensures Valid() && this.memory == memory && this.flash == flash && this.chipset == chipset
      ensures View() == State(seq(SCRATCH_SIZE, i => 0), memory.State(), flash.State(),
                              Io(chipset.State(), chipset.cchip.Windows()))
    {
      this.memory := memory;
      this.flash := flash;
      this.chipset := chipset;
      scratch := seq(SCRATCH_SIZE, i => 0);
    }

    method ReadScratch(off: nat, width: nat) returns (r: Reply)
      ensures r == ScratchRead(scratch, off, width)
    {
      if off + width > SCRATCH_SIZE { return Data(0); }
      if width > 8 { return Overrun; }
      return Data(Memory.Value(scratch[off..off + width]));
    }

    ghost function Ports(): Io
      reads chipset, chipset.cchip, chipset.pic
    {
      Io(chipset.State(), chipset.cchip.Windows())
    }

    /** mmioRead. */
    method ReadIo(pa: nat, d: Devices) returns (a: Answer)
      requires pa >= MMIO_START && chipset.Build().Valid()
      modifies chipset`lastPicLevel, chipset`lastIicLevel, chipset.cchip`drir, chipset.pic
      ensures (Ports(), a) == LoadIo(chipset.Build(), old(Ports()), pa, d)
    {
      match LoadTarget(pa) {
        case Acknowledge =>
          var vec := chipset.ReadIack(d);
          a := CchipCsr.Value(Numbers.Number(vec));
        case Csr(off) => a := chipset.cchip.ReadRegister(off);
        case Port(port) =>
          if PicPort(port) {
            var byte := chipset.pic.IoRead(port);
            a := CchipCsr.Value(Numbers.Number(byte));
          } else {
            a := Unmodelled;
          }
        case Elsewhere => a := Unmodelled;
      }
    }

    /** mmioWrite. */
    method WriteIo(pa: nat, v: Quad, spurious: nat)
      requires pa >= MMIO_START
      modifies chipset.cchip, chipset.pic
      ensures Ports() == StoreIo(chipset.Build(), old(Ports()), pa, v)
    {
      match StoreTarget(pa) {
        case Csr(off) => chipset.cchip.WriteRegister(off, v, spurious);
        case Port(port) => if PicPort(port) { chipset.pic.IoWrite(port, LowByte(v)); }
        case _ =>
      }
    }

    /** read(): only the DRAM rung looks at the width. */
    method Read(pa: nat, width: nat, d: Devices, spurious: nat) returns (r: Reply)
      requires Valid()
      modifies flash`mode, chipset`lastPicLevel, chipset`lastIicLevel
      modifies chipset.cchip`misc, chipset.cchip`drir, chipset.pic
      ensures Valid() && (View(), r) == ReadSpec(chipset.Build(), old(View()), pa, width, d)
    {
      if ScratchAt(pa) {
        r := ReadScratch(pa - SCRATCH_BASE, width);
        return;
      }
      var dram := IsDramAddress(chipset.cchip.aar, pa);
      if dram {
        if !LegalWidth(width) { return BusError; }
        var v := memory.Read(pa, width);
        return Data(v);
      }
      if FlashAt(pa) {
        var v := flash.Read(FlashOffset(pa));
        return Data(v);
      }
      r := ReadBelow(pa, width, d, spurious);
    }

    /** The rungs below the flash. */
    method ReadBelow(pa: nat, width: nat, d: Devices, spurious: nat) returns (r: Reply)
      requires Valid() && !ScratchAt(pa) && !IsDram(chipset.cchip.aar, pa) && !FlashAt(pa)
      modifies chipset`lastPicLevel, chipset`lastIicLevel
      modifies chipset.cchip`misc, chipset.cchip`drir, chipset.pic
      ensures Valid() && (View(), r) == ReadSpec(chipset.Build(), old(View()), pa, width, d)
    {
      if pa == TRACE_ARM { return Data(INT64_MAX); }
      if TigAt(pa) { return Routed; }
      if pa >= MMIO_START {
        var a := ReadIo(pa, d);
        return AsReply(a);
      }
      chipset.cchip.ReportNxm({}, spurious);
      return Data(ALL_ONES);
    }

    /** write(): an illegal width is refused before any decode. */
    method Write(pa: nat, v: Quad, width: nat, spurious: nat) returns (r: Reply)
      requires Valid()
      modifies this`scratch, memory, flash`mode, flash`dirty, flash`pendingMutation, flash.data
      modifies chipset.cchip, chipset.pic
      ensures Valid() && (View(), r) == WriteSpec(chipset.Build(), old(View()), pa, v, width)
    {
      if !LegalWidth(width) { return BusError; }
      r := Data(0);
      if ScratchAt(pa) {
        scratch := ScratchWrite(scratch, pa - SCRATCH_BASE, width, v);
        return;
      }
      var dram := IsDramAddress(chipset.cchip.aar, pa);
      if dram {
        memory.Write(pa, width, v);
        return;
      }
      if FlashAt(pa) {
        flash.Write(FlashOffset(pa), v % 256);
        return;
      }
      WriteBelow(pa, v, width, spurious);
    }

    method WriteBelow(pa: nat, v: Quad, width: nat, spurious: nat)
      requires Valid() && !ScratchAt(pa) && !IsDram(chipset.cchip.aar, pa) && !FlashAt(pa) && LegalWidth(width)
      modifies chipset.cchip, chipset.pic
      ensures Valid() && View() == WriteSpec(chipset.Build(), old(View()), pa, v, width).0
    {
      if pa == TRACE_ARM || TigAt(pa) { return; }
      if pa >= MMIO_START {
        WriteIo(pa, v, spurious);
        return;
      }
      chipset.cchip.ReportNxm({}, spurious);
    }
  }
}

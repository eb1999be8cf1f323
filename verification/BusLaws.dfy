/** What firmware sees when it drives the machine through the bus, at its physical
    addresses (chipsetLib/TsunamiChipset.cpp:70-261,
    chipsetLib/TsunamiChipset.h:155-265). */
module BusLaws {
  import opened Words
  import opened Arithmetic
  import opened Numbers
  import MiscSpec
  import opened CchipOps
  import opened CchipCsr
  import opened Aar
  import opened Mmio
  import opened PicModel
  import opened PicRuns
  import opened PicLaws
  import opened Chipset
  import opened ChipsetLaws
  import M = Memory
  import F = FlashModel
  import L = FlashLaws
  import P = FlashPersist
  import opened Bus

  // ---- The map ----

  /** Which addresses decode to which claimant. */
  lemma AddressMap(aars: seq<Register>, pa: nat)
    ensures Decode(aars, pa).Scratch? <==> 0xFFF_FFF0_0000 <= pa < 0x1000_0000_0000
    ensures Decode(aars, pa).FlashRom? <==> 0x801_0000_0000 <= pa < 0x801_0800_0000
    ensures Decode(aars, pa).TraceArm? <==> pa == 0x801_3000_0FF8
    ensures Decode(aars, pa).Tig? <==> 0x801_3000_0000 <= pa < 0x801_4000_0000 && pa != 0x801_3000_0FF8
    ensures Decode(aars, pa).Dram? <==> IsDram(aars, pa)
    ensures Decode(aars, pa).Nobody? <==> pa < 0x800_0000_0000 && !IsDram(aars, pa)
    ensures 0x801_4000_0000 <= pa < 0x802_0000_0000 ==> Decode(aars, pa).Mmio?
  {
    if IsDram(aars, pa) { DramBelowMmio(aars, pa); }
  }

  /** Nonexistent memory reads as all ones and the trace register as the largest
      positive quadword. */
  lemma SpecialReads(cfg: Config, b: State, pa: nat, width: nat, d: Devices)
    requires cfg.Valid()
    ensures pa < 0x800_0000_0000 && !IsDram(b.Aars(), pa) ==>
              ReadSpec(cfg, b, pa, width, d).1 == Data(0xFFFF_FFFF_FFFF_FFFF)
    ensures ReadSpec(cfg, b, 0x801_3000_0FF8, width, d) == (b, Data(0x7FFF_FFFF_FFFF_FFFF))
  {
    AddressMap(b.Aars(), pa);
    AddressMap(b.Aars(), 0x801_3000_0FF8);
  }

  // ---- The Cchip's registers ----

  /** A register's address, and what a store and a load there do. */
  lemma RegisterStore(cfg: Config, b: State, off: nat, v: Quad, width: nat)
    requires LegalWidth(width) && off < 0x1000_0000
    ensures var (s, r) := WriteCsr(cfg.cpus, b.io.glue.cchip, b.io.regs, off, v);
            WriteSpec(cfg, b, 0x801_A000_0000 + off, v, width).0 ==
            b.(io := Io(b.io.glue.(cchip := s), r))
  {
    AddressMap(b.Aars(), 0x801_A000_0000 + off);
    assert StoreTarget(0x801_A000_0000 + off) == Target.Csr(off);
  }

  lemma RegisterLoad(cfg: Config, b: State, off: nat, width: nat, d: Devices)
    requires cfg.Valid() && off < 0x1000_0000
    ensures ReadSpec(cfg, b, 0x801_A000_0000 + off, width, d) ==
            (b, AsReply(ReadCsr(b.io.glue.cchip, b.io.regs, off)))
  {
    AddressMap(b.Aars(), 0x801_A000_0000 + off);
    assert LoadTarget(0x801_A000_0000 + off) == Target.Csr(off);
  }

  /** A store to MISC over the bus is a MISC write. */
  lemma MiscStore(cfg: Config, b: State, v: Quad, width: nat)
    requires cfg.Valid() && LegalWidth(width)
    ensures WriteSpec(cfg, b, 0x801_A000_0080, v, width).0 ==
            b.(io := b.io.(glue := b.io.glue.(cchip := Perform(cfg.cpus, b.io.glue.cchip, WriteMisc(Bits(v))))))
  {
    RegisterStore(cfg, b, 0x80, v, width);
    MiscStoreWrites(cfg.cpus, b.io.glue.cchip, b.io.regs, v);
  }

  /** A store to array register i opens exactly the window that it encodes: an
      address is DRAM afterwards if and only if one of the other three windows
      holds it, or this one. */
  lemma ArrayStoreDecodes(cfg: Config, b: State, i: nat, v: Quad, width: nat, pa: nat)
    requires cfg.Valid() && LegalWidth(width) && i < 4
    ensures IsDram(WriteSpec(cfg, b, 0x801_A000_0100 + 0x40 * i, v, width).0.Aars(), pa) <==>
            || (exists j | 0 <= j < 4 && j != i :: InWindow(b.Aars()[j], pa))
            || (SizeOf(v) != 0 && BaseOf(v) <= pa < BaseOf(v) + SizeOf(v))
  {
    RegisterStore(cfg, b, 0x100 + 0x40 * i, v, width);
    ArrayStoreOpens(cfg.cpus, b.io.glue.cchip, b.io.regs, i, v, pa);
    var after := WriteCsr(cfg.cpus, b.io.glue.cchip, b.io.regs, 0x100 + 0x40 * i, v).1.aar;
    if exists j | 0 <= j < 4 && j != i :: InWindow(b.Aars()[j], pa) {
      var j :| 0 <= j < 4 && j != i && InWindow(b.Aars()[j], pa);
      assert InWindow(after[j], pa);
    }
    if InWindow(after[i], pa) { assert IsDram(after, pa); }
    if IsDram(after, pa) {
      var j :| 0 <= j < 4 && InWindow(after[j], pa);
      assert j != i ==> InWindow(b.Aars()[j], pa);
    }
  }

  /** A load of nonexistent memory that finds NXM down raises MISC<28> and
      DRIR<63>, clears the source field MISC<31:29>, and moves no other bit of the
      Cchip. */
  lemma MissedLoad(cfg: Config, b: State, pa: nat, width: nat, d: Devices, bit: nat)
    requires cfg.Valid() && pa < 0x800_0000_0000 && !IsDram(b.Aars(), pa)
    requires 28 !in b.io.glue.cchip.misc
    ensures var s, r := b.io.glue.cchip, ReadSpec(cfg, b, pa, width, d).0.io.glue.cchip;
            && (bit in r.misc <==> bit == 28 || (bit in s.misc && !(29 <= bit < 32)))
            && (bit in r.drir <==> bit == 63 || bit in s.drir)
            && r.irq2 == s.irq2 && r.irq3 == s.irq3
  {
    AddressMap(b.Aars(), pa);
    MiscSpec.NxmBits(b.io.glue.cchip.misc, {}, bit);
  }

  // ---- The 8259 ports ----

  /** An I/O port's address in dense and in sparse I/O space. */
  function PortAddress(sparse: bool, port: nat): nat {
    if sparse then 0x801_4000_0000 + 32 * port else 0x801_FC00_0000 + port
  }

  /** The 8259 pair's six ports. */
  predicate OnPair(port: nat) {
    port == 0x20 || port == 0x21 || port == 0xA0 || port == 0xA1 || port == 0x4D0 || port == 0x4D1
  }

  /** A store to a PIC port, in either space and at any legal width, is a write of
      its low byte to that port, and moves nothing but the PIC. */
  lemma PortStore(cfg: Config, b: State, sparse: bool, port: nat, v: Quad, width: nat)
    requires LegalWidth(width) && OnPair(port)
    ensures WriteSpec(cfg, b, PortAddress(sparse, port), v, width).0 ==
            b.(io := b.io.(glue := b.io.glue.(pic := WritePort(b.io.glue.pic, port, LowByte(v)))))
  {
    AddressMap(b.Aars(), PortAddress(sparse, port));
    assert StoreTarget(PortAddress(sparse, port)) == Port(port);
  }

  /** A load from a PIC port reads that port, and moves nothing but the PIC. */
  lemma PortLoad(cfg: Config, b: State, sparse: bool, port: nat, width: nat, d: Devices)
    requires cfg.Valid() && OnPair(port)
    ensures var (pic, byte) := ReadPort(b.io.glue.pic, port);
            ReadSpec(cfg, b, PortAddress(sparse, port), width, d) ==
            (b.(io := b.io.(glue := b.io.glue.(pic := pic))), Data(Number(byte)))
  {
    AddressMap(b.Aars(), PortAddress(sparse, port));
    assert LoadTarget(PortAddress(sparse, port)) == Port(port);
  }

  lemma LowByteBits(v: nat)
    ensures Number(LowByte(v)) == v % 256
    ensures forall i: nat :: i in LowByte(v) <==> i < 8 && Bit(v, i)
  {
    NumberOfByteBelow(LowByte(v), 64);
    SameBelow(LowByte(v), Bits(v), 8);
    BitsNumber(v, 8);
    assert Pow2(8) == 256;
  }

  lemma {:induction false} SameBelow(a: Word, c: Word, k: nat)
    requires forall i: nat | i < k :: i in a <==> i in c
    ensures NumberBelow(a, k) == NumberBelow(c, k)
    decreases k
  {
    if k > 0 { SameBelow(a, c, k - 1); }
  }

  /** The base of the unit whose data port this is. */
  function DataPortBase(port: nat): nat
    requires port == 0x21 || port == 0xA1
  {
    port - 1
  }

  /** A store to the data port of a Ready unit leaves its mask with exactly the
      low eight bits stored and moves nothing else of the machine; a load from the
      port then returns those bits. */
  lemma MaskStore(cfg: Config, b: State, sparse: bool, port: nat, v: Quad, width: nat, d: Devices)
    requires cfg.Valid() && LegalWidth(width) && (port == 0x21 || port == 0xA1)
    requires UnitAt(b.io.glue.pic, DataPortBase(port)).init.Ready?
    ensures var after := WriteSpec(cfg, b, PortAddress(sparse, port), v, width).0;
            var u := UnitAt(after.io.glue.pic, DataPortBase(port));
            && (forall i: nat :: i in u.imr <==> i < 8 && Bit(v, i))
            && u == UnitAt(b.io.glue.pic, DataPortBase(port)).(imr := u.imr)
            && after == b.(io := b.io.(glue := b.io.glue.(pic := WithUnit(b.io.glue.pic, DataPortBase(port), u))))
            && ReadSpec(cfg, after, PortAddress(sparse, port), width, d) == (after, Data(v % 256))
  {
    PortStore(cfg, b, sparse, port, v, width);
    LowByteBits(v);
    var after := WriteSpec(cfg, b, PortAddress(sparse, port), v, width).0;
    PortLoad(cfg, after, sparse, port, width, d);
  }

  // ---- A device interrupt, end to end ----

  /** A store to a PIC port. */
  datatype ByteStore = ByteStore(sparse: bool, port: nat, v: Quad, width: nat)

  predicate Proper(w: ByteStore) { LegalWidth(w.width) && OnPair(w.port) }

  ghost function StoreAll(cfg: Config, b: State, ws: seq<ByteStore>): State
    decreases ws
  {
    if ws == [] then b
    else StoreAll(cfg, WriteSpec(cfg, b, PortAddress(ws[0].sparse, ws[0].port), ws[0].v, ws[0].width).0, ws[1..])
  }

  function AsOps(ws: seq<ByteStore>): seq<PicModel.Op> {
    if ws == [] then [] else [PicModel.Op.Write(ws[0].port, LowByte(ws[0].v))] + AsOps(ws[1..])
  }

  /** Stores to PIC ports over the bus run the PIC, and move nothing else. */
  lemma {:induction false} StoresRunPic(cfg: Config, b: State, ws: seq<ByteStore>)
    requires forall w | w in ws :: Proper(w)
    ensures StoreAll(cfg, b, ws) ==
            b.(io := b.io.(glue := b.io.glue.(pic := PicModel.Run(b.io.glue.pic, AsOps(ws)))))
    decreases ws
  {
    if ws != [] {
      assert Proper(ws[0]);
      PortStore(cfg, b, ws[0].sparse, ws[0].port, ws[0].v, ws[0].width);
      var next := WriteSpec(cfg, b, PortAddress(ws[0].sparse, ws[0].port), ws[0].v, ws[0].width).0;
      StoresRunPic(cfg, next, ws[1..]);
      assert AsOps(ws)[1..] == AsOps(ws[1..]);
    }
  }

  /** ICW1 to ICW4 and OCW1 for one unit, as byte stores. */
  function ProgramStores(sparse: bool, base: nat, vector: Cell, icw3: Cell, icw4: Cell, mask: Cell): seq<ByteStore> {
    [ByteStore(sparse, base, 0x11, 1), ByteStore(sparse, base + 1, vector, 1), ByteStore(sparse, base + 1, icw3, 1),
     ByteStore(sparse, base + 1, icw4, 1), ByteStore(sparse, base + 1, mask, 1)]
  }

  lemma ProgramOps(sparse: bool, base: nat, vector: Cell, icw3: Cell, icw4: Cell, mask: Cell)
    ensures AsOps(ProgramStores(sparse, base, vector, icw3, icw4, mask)) ==
            Program(base, LowByte(0x11), LowByte(vector), LowByte(icw3), LowByte(icw4), LowByte(mask))
  {
    var ws := ProgramStores(sparse, base, vector, icw3, icw4, mask);
    assert ws[1..][1..] == ws[2..] && ws[2..][1..] == ws[3..] && ws[3..][1..] == ws[4..] && ws[4..][1..] == [];
    assert AsOps(ws[4..]) == [PicModel.Op.Write(base + 1, LowByte(mask))];
    assert AsOps(ws[3..]) == [PicModel.Op.Write(base + 1, LowByte(icw4))] + AsOps(ws[4..]);
    assert AsOps(ws[2..]) == [PicModel.Op.Write(base + 1, LowByte(icw3))] + AsOps(ws[3..]);
    assert AsOps(ws[1..]) == [PicModel.Op.Write(base + 1, LowByte(vector))] + AsOps(ws[2..]);
  }

  lemma StartsInit()
    ensures IsIcw1(LowByte(0x11))
  {
    assert Pow2(4) == 16;
    assert Bit(0x11, 4);
  }

  /** Programming one unit works from every state of the pair: it is Ready and
      idle with the given mask, its vector base is the given one rounded down to a
      multiple of eight, and nothing else of the pair has moved. */
  lemma PicProgrammed(p: Pair, sparse: bool, base: nat, vector: Cell, icw3: Cell, icw4: Cell, mask: Cell)
    requires IsBase(base)
    ensures var r := PicModel.Run(p, AsOps(ProgramStores(sparse, base, vector, icw3, icw4, mask)));
            var u := UnitAt(r, base);
            && u.init.Ready? && u.irr == {} && u.isr == {} && u.imr == LowByte(mask)
            && u.icw2 !! {0, 1, 2} && Number(u.icw2) == vector / 8 * 8
            && r == WithUnit(p, base, u)
  {
    ProgramOps(sparse, base, vector, icw3, icw4, mask);
    StartsInit();
    Programmed(p, base, LowByte(0x11), LowByte(vector), LowByte(icw3), LowByte(icw4), LowByte(mask));
    var r := PicModel.Run(p, AsOps(ProgramStores(sparse, base, vector, icw3, icw4, mask)));
    BaseNumber(UnitAt(r, base).icw2, vector);
  }

  /** Dropping the low three bits of a byte rounds it down to a multiple of 8. */
  lemma BaseNumber(w: Byte, vector: Cell)
    requires forall b: nat :: b in w <==> b >= 3 && b in LowByte(vector)
    ensures Number(w) == vector / 8 * 8
  {
    LowByteBits(vector);
    ByteNumber(LowByte(vector));
    ByteNumber(w);
    SameHighPart(w, LowByte(vector));
    var eighths := HighIsMultiple(LowByte(vector));
    RoundDown(vector, LowPart(LowByte(vector)), eighths);
  }

  lemma HighIsMultiple(b: Byte) returns (k: nat)
    ensures HighPart(b) == 8 * k
  {
    k := (if 3 in b then 1 else 0) + (if 4 in b then 2 else 0) + (if 5 in b then 4 else 0)
         + (if 6 in b then 8 else 0) + (if 7 in b then 16 else 0);
  }

  lemma SameHighPart(w: Byte, b: Byte)
    requires forall i: nat :: i in w <==> i >= 3 && i in b
    ensures HighPart(w) == HighPart(b) && LowPart(w) == 0
    ensures LowPart(b) < 8
  {
  }

  lemma RoundDown(n: nat, low: nat, high: nat)
    requires n == low + 8 * high && low < 8
    ensures n / 8 * 8 == 8 * high
  {
  }

  /** The stores that program both units, with only COM1's line unmasked. */
  function BringUp(sparse: bool, v0: Cell, v1: Cell): seq<ByteStore> {
    ProgramStores(sparse, 0x20, v0, 4, 1, 0xEF) + ProgramStores(sparse, 0xA0, v1, 2, 1, 0xFF)
  }

  /** Both units are ready and idle, with only line 4 open and the master's vector
      base at n. */
  ghost predicate OnlyLineFour(p: Pair, n: nat) {
    && p.master.init.Ready? && p.slave.init.Ready? && p.master.isr == {} && p.slave.isr == {}
    && p.master.irr == {} && p.slave.irr == {} && BasesAligned(p) && Number(p.master.icw2) == n
    && forall i: nat :: i in p.master.imr <==> i < 8 && i != 4
  }

  lemma {:induction false} AsOpsConcat(a: seq<ByteStore>, b: seq<ByteStore>)
    ensures AsOps(a + b) == AsOps(a) + AsOps(b)
    decreases a
  {
    if a == [] {
      assert a + b == b;
    } else {
      assert (a + b)[1..] == a[1..] + b;
      AsOpsConcat(a[1..], b);
    }
  }

  lemma {:induction false} PicRunConcat(p: Pair, a: seq<PicModel.Op>, b: seq<PicModel.Op>)
    ensures PicModel.Run(p, a + b) == PicModel.Run(PicModel.Run(p, a), b)
    decreases a
  {
    if a == [] {
      assert a + b == b;
    } else {
      assert (a + b)[1..] == a[1..] + b;
      PicRunConcat(PicModel.Next(p, a[0]), a[1..], b);
    }
  }

  /** Programming brings every pair to that state and moves no line. */
  lemma BringsUp(p: Pair, sparse: bool, v0: Cell, v1: Cell)
    ensures var r := PicModel.Run(p, AsOps(BringUp(sparse, v0, v1)));
            OnlyLineFour(r, v0 / 8 * 8) && r.lastInput == p.lastInput
  {
    var a, c := ProgramStores(sparse, 0x20, v0, 4, 1, 0xEF), ProgramStores(sparse, 0xA0, v1, 2, 1, 0xFF);
    AsOpsConcat(a, c);
    PicRunConcat(p, AsOps(a), AsOps(c));
    PicProgrammed(p, sparse, 0x20, v0, 4, 1, 0xEF);
    PicProgrammed(PicModel.Run(p, AsOps(a)), sparse, 0xA0, v1, 2, 1, 0xFF);
    MaskBits();
  }

  /** What the glue does from there when COM1 rises. */
  lemma LineFourDelivered(cfg: Config, g: Glue, n: nat, d: Devices)
    requires cfg.Valid() && cfg.iic != BRIDGE_LINE && Mirrored(g) && OnlyLineFour(g.pic, n)
    requires d.com1 && !g.pic.lastInput[4]
    ensures var r := Eval(cfg, g, d);
            && BRIDGE_LINE in r.cchip.drir
            && Number(Iack(cfg, r, d).1) == n + 4
            && BRIDGE_LINE !in Iack(cfg, r, d).0.cchip.drir
  {
    LineFourWins(g.pic, n, d);
    EvalMirrors(cfg, g, d);
    var r := Eval(cfg, g, d);
    IackValue(cfg, r, d);
    assert Best(r.pic, 4);
    IackDropsBridge(cfg, r, [], d);
  }

  /** A device interrupt, end to end, from every state of the machine.  Firmware
      programs both units over the bus with only COM1's line unmasked on the
      master; COM1, which was low, raises its line; an evaluation runs.  Then
      DRIR<55> is up, and the load of the acknowledge window returns the master's
      vector base plus 4 and, if the devices have not moved, drops it. */
  lemma DeviceInterrupt(cfg: Config, b: State, sparse: bool, v0: Cell, v1: Cell, d: Devices)
    requires cfg.Valid() && cfg.iic != BRIDGE_LINE && Mirrored(b.io.glue)
    requires d.com1 && !b.io.glue.pic.lastInput[4]
    ensures Delivers(cfg, StoreAll(cfg, b, BringUp(sparse, v0, v1)), v0 / 8 * 8 + 4, d)
  {
    BringsUp(b.io.glue.pic, sparse, v0, v1);
    BringUpProper(sparse, v0, v1);
    DeliversAfter(cfg, b, BringUp(sparse, v0, v1), v0 / 8 * 8, d);
  }

  lemma BringUpProper(sparse: bool, v0: Cell, v1: Cell)
    ensures forall w | w in BringUp(sparse, v0, v1) :: Proper(w)
  {
  }

  lemma DeliversAfter(cfg: Config, b: State, ws: seq<ByteStore>, n: nat, d: Devices)
    requires cfg.Valid() && cfg.iic != BRIDGE_LINE && Mirrored(b.io.glue) && forall w | w in ws :: Proper(w)
    requires var p := PicModel.Run(b.io.glue.pic, AsOps(ws));
             OnlyLineFour(p, n) && d.com1 && !p.lastInput[4]
    ensures Delivers(cfg, StoreAll(cfg, b, ws), n + 4, d)
  {
    StoresRunPic(cfg, b, ws);
    DeliversFrom(cfg, StoreAll(cfg, b, ws), n, d);
  }

  /** An evaluation raises DRIR<55>; the load of the acknowledge window then
      returns the vector and drops the line. */
  ghost predicate Delivers(cfg: Config, ready: State, vector: nat, d: Devices)
    requires cfg.Valid()
  {
    var raised := ready.(io := ready.io.(glue := Eval(cfg, ready.io.glue, d)));
    var (after, reply) := ReadSpec(cfg, raised, 0x801_F800_0000, 4, d);
    && 55 in raised.io.glue.cchip.drir
    && reply == Data(vector)
    && 55 !in after.io.glue.cchip.drir
  }

  lemma DeliversFrom(cfg: Config, ready: State, n: nat, d: Devices)
    requires cfg.Valid() && cfg.iic != BRIDGE_LINE && Mirrored(ready.io.glue)
    requires OnlyLineFour(ready.io.glue.pic, n) && d.com1 && !ready.io.glue.pic.lastInput[4]
    ensures Delivers(cfg, ready, n + 4, d)
  {
    LineFourDelivered(cfg, ready.io.glue, n, d);
    IackLoad(cfg, ready.(io := ready.io.(glue := Eval(cfg, ready.io.glue, d))), d);
  }

  lemma MaskBits()
    ensures forall i: nat :: i in LowByte(0xEF) <==> i < 8 && i != 4
  {
    LowByteBits(0xEF);
    assert Pow2(0) == 1 && Pow2(1) == 2 && Pow2(2) == 4 && Pow2(3) == 8;
    assert Pow2(4) == 16 && Pow2(5) == 32 && Pow2(6) == 64 && Pow2(7) == 128;
    assert Bit(0xEF, 0) && Bit(0xEF, 1) && Bit(0xEF, 2) && Bit(0xEF, 3);
    assert !Bit(0xEF, 4) && Bit(0xEF, 5) && Bit(0xEF, 6) && Bit(0xEF, 7);
  }

  /** With only line 4 open, a rising COM1 makes it the best line. */
  lemma LineFourWins(p: Pair, n: nat, d: Devices)
    requires OnlyLineFour(p, n) && d.com1 && !p.lastInput[4]
    ensures Best(Drive(p, d), 4) && OutputAsserted(Drive(p, d)) && BasesAligned(Drive(p, d))
    ensures Unchanged(Drive(p, d), d) && Drive(p, d).master.icw2 == p.master.icw2
  {
    var q := Drive(p, d);
    ChipsetLaws.DriveLines(p, d, 4);
    ChipsetLaws.DriveLines(p, d, 3);
    ChipsetLaws.DriveLines(p, d, 6);
    assert Deliverable(q, 4);
    assert CASCADE in q.master.imr;
    assert forall k: IrqLine | Deliverable(q, k) :: k == 4;
    assert Best(q, 4);
    PendingIsBest(q);
  }

  /** A load of the acknowledge window. */
  lemma IackLoad(cfg: Config, b: State, d: Devices)
    requires cfg.Valid()
    ensures var (g, byte) := Iack(cfg, b.io.glue, d);
            ReadSpec(cfg, b, 0x801_F800_0000, 4, d) == (b.(io := b.io.(glue := g)), Data(Number(byte)))
  {
    AddressMap(b.Aars(), 0x801_F800_0000);
  }

  // ---- Flash and scratch ----

  /** The sixty-four addresses at which byte `off` of the flash answers. */
  predicate FlashByteAt(pa: nat, off: nat) {
    off < 0x20_0000 && 0x801_0000_0000 + 64 * off <= pa < 0x801_0000_0000 + 64 * off + 64
  }

  lemma FlashLoad(cfg: Config, b: State, pa: nat, off: nat, width: nat, d: Devices)
    requires cfg.Valid() && FlashByteAt(pa, off)
    ensures ReadSpec(cfg, b, pa, width, d) ==
            (b.(disk := b.disk.(flash := F.Do(b.disk.flash, F.R(off)))), Data(F.ReadValue(b.disk.flash, off)))
  {
    AddressMap(b.Aars(), pa);
    assert FlashOffset(pa) == off;
  }

  lemma FlashStore(cfg: Config, b: State, pa: nat, off: nat, v: Quad, width: nat)
    requires LegalWidth(width) && FlashByteAt(pa, off)
    ensures WriteSpec(cfg, b, pa, v, width).0 ==
            b.(disk := b.disk.(flash := F.Do(b.disk.flash, F.W(off, v % 256))))
  {
    AddressMap(b.Aars(), pa);
    assert FlashOffset(pa) == off;
  }

  /** The flash after stores over the bus to the given bytes. */
  ghost function FlashStores(cfg: Config, b: State, ws: seq<(nat, Cell)>): State
    decreases ws
  {
    if ws == [] then b
    else FlashStores(cfg, OneStore(cfg, b, ws[0].0, ws[0].1), ws[1..])
  }

  ghost function OneStore(cfg: Config, b: State, off: nat, v: Cell): State {
    WriteSpec(cfg, b, 0x801_0000_0000 + 64 * off, v, 1).0
  }

  lemma OneStoreDoes(cfg: Config, b: State, off: nat, v: Cell)
    requires off < 0x20_0000
    ensures OneStore(cfg, b, off, v) == b.(disk := b.disk.(flash := F.Do(b.disk.flash, F.W(off, v))))
  {
    FlashStore(cfg, b, 0x801_0000_0000 + 64 * off, off, v, 1);
  }

  function FlashTrace(ws: seq<(nat, Cell)>): seq<F.Access> {
    if ws == [] then [] else [F.W(ws[0].0, ws[0].1)] + FlashTrace(ws[1..])
  }

  lemma {:induction false} FlashStoresRun(cfg: Config, b: State, ws: seq<(nat, Cell)>)
    requires forall w | w in ws :: w.0 < 0x20_0000
    ensures FlashStores(cfg, b, ws) == b.(disk := b.disk.(flash := F.Run(b.disk.flash, FlashTrace(ws))))
    ensures F.Writes(FlashTrace(ws)) == FlashTrace(ws)
    decreases ws
  {
    if ws != [] {
      assert ws[0] in ws;
      OneStoreDoes(cfg, b, ws[0].0, ws[0].1);
      FlashStoresRun(cfg, OneStore(cfg, b, ws[0].0, ws[0].1), ws[1..]);
      assert FlashTrace(ws)[1..] == FlashTrace(ws[1..]);
    }
  }

  /** The four stores of a program command. */
  function FlashProgram(off: nat, v: Cell): seq<(nat, Cell)> {
    [(0x5555, 0xAA), (0x2AAA, 0x55), (0x5555, 0xA0), (off, v)]
  }

  /** Programming a flash byte over the bus: after the four stores of the command
      a load returns the byte. */
  lemma FlashProgramOverBus(cfg: Config, b: State, off: nat, v: Cell, pa: nat, width: nat, d: Devices)
    requires cfg.Valid() && FlashByteAt(pa, off) && b.disk.flash.mode.ReadArray?
    ensures ReadSpec(cfg, FlashStores(cfg, b, FlashProgram(off, v)), pa, width, d).1 == Data(v)
  {
    ProgramTrace(FlashProgram(off, v), off, v);
    ProgramsOverBus(cfg, b, FlashProgram(off, v), off, v, pa, width, d);
  }

  lemma ProgramsOverBus(cfg: Config, b: State, ws: seq<(nat, Cell)>, off: nat, v: Cell,
                        pa: nat, width: nat, d: Devices)
    requires cfg.Valid() && FlashByteAt(pa, off) && b.disk.flash.mode.ReadArray?
    requires forall w | w in ws :: w.0 < 0x20_0000
    requires FlashTrace(ws) == F.Sequence(F.ProgramByte(off, v))
    ensures ReadSpec(cfg, FlashStores(cfg, b, ws), pa, width, d).1 == Data(v)
  {
    FlashStoresRun(cfg, b, ws);
    L.ReadAfterProgram(b.disk.flash, FlashTrace(ws), off, v, off);
    FlashLoad(cfg, FlashStores(cfg, b, ws), pa, off, width, d);
  }

  lemma ProgramTrace(ws: seq<(nat, Cell)>, off: nat, v: Cell)
    requires ws == [(0x5555, 0xAA), (0x2AAA, 0x55), (0x5555, 0xA0), (off, v)]
    ensures FlashTrace(ws) == F.Sequence(F.ProgramByte(off, v))
  {
    assert ws[1..][1..] == ws[2..] && ws[2..][1..] == ws[3..] && ws[3..][1..] == [];
    assert FlashTrace(ws[3..]) == [F.W(off, v)];
    assert FlashTrace(ws[2..]) == [F.W(0x5555, 0xA0)] + FlashTrace(ws[3..]);
    assert FlashTrace(ws[1..]) == [F.W(0x2AAA, 0x55)] + FlashTrace(ws[2..]);
  }

  lemma ScratchLoad(cfg: Config, b: State, pa: nat, width: nat, d: Devices)
    requires cfg.Valid() && ScratchAt(pa)
    ensures ReadSpec(cfg, b, pa, width, d) == (b, ScratchRead(b.scratch, pa - SCRATCH_BASE, width))
  {
  }

  /** What a store leaves in PAL scratch. */
  lemma ScratchAfter(cfg: Config, b: State, pa: nat, v: Quad, width: nat)
    ensures WriteSpec(cfg, b, pa, v, width).0.scratch ==
            if LegalWidth(width) && ScratchAt(pa) then ScratchWrite(b.scratch, pa - SCRATCH_BASE, width, v)
            else b.scratch
  {
  }

  /** A PAL scratch load that a store does not overlap returns what it did
      before. */
  lemma ScratchUndisturbed(cfg: Config, b: State, pa: nat, v: Quad, width: nat, from: nat, n: nat, d: Devices)
    requires cfg.Valid() && ScratchAt(from) && (from + n <= pa || pa + width <= from)
    ensures ReadSpec(cfg, WriteSpec(cfg, b, pa, v, width).0, from, n, d).1 == ReadSpec(cfg, b, from, n, d).1
  {
    ScratchLoad(cfg, b, from, n, d);
    ScratchLoad(cfg, WriteSpec(cfg, b, pa, v, width).0, from, n, d);
    ScratchAfter(cfg, b, pa, v, width);
    if ScratchAt(pa) {
      ScratchElsewhere(b.scratch, pa - SCRATCH_BASE, width, v, from - SCRATCH_BASE, n);
    }
  }

  lemma ScratchElsewhere(s: ScratchPad, off: nat, width: nat, v: nat, from: nat, n: nat)
    requires from + n <= off || off + width <= from
    ensures ScratchRead(ScratchWrite(s, off, width, v), from, n) == ScratchRead(s, from, n)
  {
    if from + n <= SCRATCH_SIZE {
      assert ScratchWrite(s, off, width, v)[from..from + n] == s[from..from + n];
    }
  }
}

/** The chipset glue: the PIC output mirrored into DRIR<55>, the acknowledge
    window, and the chunked timer (chipsetLib/TsunamiChipset.h). */
module Chipset {
  import opened Words
  import opened Arithmetic
  import opened CchipOps
  import CchipRuns
  import opened PicModel
  import PicRuns
  import opened Timer
  import Aar
  import Cchip
  import CchipCsr
  import Pic

  /** DRIR<55>, the ISA bridge line. */
  const BRIDGE_LINE: Line := 55

  /** The 8259 spurious vector, master base 0 with level 7. */
  const SPURIOUS: Byte := {0, 1, 2}

  /** What a build and its environment fix: the number of CPUs, the bit of the
      cycle counter that times the interval, and the DRIR line of the IIC
      controller, or -1 when it has none. */
  datatype Config = Config(cpus: int, bit: nat, iic: int)
  {
    ghost predicate Valid() { Pow2(bit) <= TWO63 && -1 <= iic <= 55 }
  }

  /** PIC, Cchip, the cached PIC and IIC levels, and the cycle counter. */
  datatype Glue = Glue(pic: Pair, cchip: Shared, level: bool, iicLevel: bool, cycles: Quad)

  /** Levels of COM1 (IRQ4), COM2 (IRQ3), the floppy controller (IRQ6) and the
      IIC controller. */
  datatype Devices = Devices(com1: bool, com2: bool, fdc: bool, iic: bool)

  function Drive(p: Pair, d: Devices): Pair {
    SetInput(SetInput(SetInput(p, 4, d.com1), 3, d.com2), 6, d.fdc)
  }

  /** Put a DRIR line at a level. */
  function Put(s: Shared, line: Line, level: bool): Shared {
    Perform(0, s, if level then Assert(line) else Deassert(line))
  }

  /** evalDeviceIrqs: drive the inputs, and touch DRIR only on a change, first
      for the PIC and then for the IIC controller. */
  function Eval(cfg: Config, g: Glue, d: Devices): Glue
    requires cfg.Valid()
  {
    var pic := Drive(g.pic, d);
    var level := OutputAsserted(pic);
    var s := if level != g.level then Put(g.cchip, BRIDGE_LINE, level) else g.cchip;
    var moved := cfg.iic >= 0 && d.iic != g.iicLevel;
    Glue(pic, if moved then Put(s, cfg.iic, d.iic) else s, level, if moved then d.iic else g.iicLevel, g.cycles)
  }

  /** The interrupt-acknowledge read: INTA, then the mirror in the same call. */
  function Iack(cfg: Config, g: Glue, d: Devices): (Glue, Byte)
    requires cfg.Valid()
  {
    var (pic, vec) := PicModel.Acknowledge(g.pic);
    (Eval(cfg, g.(pic := pic), d), if vec.Vector? then vec.byte else SPURIOUS)
  }

  /** The counter moves on, and the timer fires or not. */
  function Clocked(cpus: int, g: Glue, now: Quad, fire: bool): Glue {
    g.(cycles := now, cchip := if fire then Perform(cpus, g.cchip, FireTimer) else g.cchip)
  }

  function Advance(cfg: Config, g: Glue, cycles: nat): Glue {
    Clocked(cfg.cpus, g, (g.cycles + cycles) % TWO64, Fires(Pow2(cfg.bit), g.cycles, cycles))
  }

  /** TsunamiChipset::reset reaches the Cchip but neither the PIC nor the cached
      levels. */
  function Reset(g: Glue, rev: Byte): Glue {
    g.(cchip := CchipRuns.ResetState(rev))
  }

  datatype Event =
    | EvalEvent(d: Devices)
    | IackEvent(d: Devices)
    | PortRead(port: nat)
    | PortWrite(port: nat, v: Byte)
    | CchipCall(op: CchipOps.Op)
    | Tick(cycles: Quad)

  /** Only evalDeviceIrqs drives the bridge line. */
  predicate KeepsOffBridge(e: Event) {
    e.CchipCall? && (e.op.Assert? || e.op.Deassert?) ==> e.op.line != BRIDGE_LINE
  }

  function Next(cfg: Config, g: Glue, e: Event): Glue
    requires cfg.Valid()
  {
    match e
    case EvalEvent(d) => Eval(cfg, g, d)
    case IackEvent(d) => Iack(cfg, g, d).0
    case PortRead(port) => g.(pic := ReadPort(g.pic, port).0)
    case PortWrite(port, v) => g.(pic := WritePort(g.pic, port, v))
    case CchipCall(op) => g.(cchip := Perform(cfg.cpus, g.cchip, op))
    case Tick(cycles) => Advance(cfg, g, cycles)
  }

  function Run(cfg: Config, g: Glue, events: seq<Event>): Glue
    requires cfg.Valid()
    decreases events
  {
    if events == [] then g else Run(cfg, Next(cfg, g, events[0]), events[1..])
  }

  // ---- The mirror ----

  predicate Mirrored(g: Glue) { BRIDGE_LINE in g.cchip.drir <==> g.level }

  lemma PerformKeepsLine(cpus: int, s: Shared, op: CchipOps.Op, line: int)
    requires 0 <= line <= 55 && ((op.Assert? || op.Deassert?) ==> op.line != line)
    ensures line in Perform(cpus, s, op).drir <==> line in s.drir
  {
  }

  lemma EvalMirrors(cfg: Config, g: Glue, d: Devices)
    requires cfg.Valid() && cfg.iic != BRIDGE_LINE && Mirrored(g)
    ensures Mirrored(Eval(cfg, g, d))
    ensures BRIDGE_LINE in Eval(cfg, g, d).cchip.drir <==> OutputAsserted(Eval(cfg, g, d).pic)
    ensures Eval(cfg, g, d).pic == Drive(g.pic, d)
  {
  }

  /** Evaluations keep the mirror if and only if the IIC line is not on bit 55. */
  lemma EvalMirrorsIff(cfg: Config)
    requires cfg.Valid()
    ensures (forall g: Glue, d: Devices | Mirrored(g) :: Mirrored(Eval(cfg, g, d))) <==> cfg.iic != BRIDGE_LINE
  {
    if cfg.iic == BRIDGE_LINE {
      var g := Glue(RESET_PAIR, Shared({}, {}, NO_LATCH, NO_LATCH), false, false, 0);
      var d := Devices(false, false, false, true);
      DriveLow();
      assert Mirrored(g) && !Mirrored(Eval(cfg, g, d));
    } else {
      forall g: Glue, d: Devices | Mirrored(g) ensures Mirrored(Eval(cfg, g, d)) {
        EvalMirrors(cfg, g, d);
      }
    }
  }

  lemma DriveLow()
    ensures !OutputAsserted(Drive(RESET_PAIR, Devices(false, false, false, true)))
  {
  }

  /** The IIC controller's own line, when no call but the evaluation drives it. */
  predicate IicMirrored(cfg: Config, g: Glue)
  {
    cfg.iic >= 0 ==> (cfg.iic in g.cchip.drir <==> g.iicLevel)
  }

  /** In every run DRIR<55> equals the cached level. */
  lemma {:induction false} RunMirrored(cfg: Config, g: Glue, events: seq<Event>)
    requires cfg.Valid() && cfg.iic != BRIDGE_LINE && Mirrored(g)
    requires forall e | e in events :: KeepsOffBridge(e)
    ensures Mirrored(Run(cfg, g, events))
    decreases events
  {
    if events != [] {
      var e := events[0];
      assert KeepsOffBridge(e);
      match e {
        case EvalEvent(d) => EvalMirrors(cfg, g, d);
        case IackEvent(d) => EvalMirrors(cfg, g.(pic := PicModel.Acknowledge(g.pic).0), d);
        case CchipCall(op) => PerformKeepsLine(cfg.cpus, g.cchip, op, BRIDGE_LINE);
        case Tick(_) => PerformKeepsLine(cfg.cpus, g.cchip, FireTimer, BRIDGE_LINE);
        case _ =>
      }
      RunMirrored(cfg, Next(cfg, g, e), events[1..]);
    }
  }

  /** So after any run, evaluating the device lines leaves DRIR<55> at the PIC's
      real output, however many changes the cache has skipped over. */
  lemma EvalShowsOutput(cfg: Config, g: Glue, events: seq<Event>, d: Devices)
    requires cfg.Valid() && cfg.iic != BRIDGE_LINE && Mirrored(g)
    requires forall e | e in events :: KeepsOffBridge(e)
    ensures var r := Eval(cfg, Run(cfg, g, events), d);
            BRIDGE_LINE in r.cchip.drir <==> OutputAsserted(r.pic)
  {
    RunMirrored(cfg, g, events);
    EvalMirrors(cfg, Run(cfg, g, events), d);
  }

  /** The device levels are the ones the PIC last saw. */
  predicate Unchanged(p: Pair, d: Devices) {
    p.lastInput[4] == d.com1 && p.lastInput[3] == d.com2 && p.lastInput[6] == d.fdc
  }

  lemma DriveUnchanged(p: Pair, d: Devices)
    requires Unchanged(p, d)
    ensures Drive(p, d) == p
  {
    assert p.lastInput[4 := d.com1] == p.lastInput;
    assert p.lastInput[3 := d.com2] == p.lastInput;
    assert p.lastInput[6 := d.fdc] == p.lastInput;
  }

  /** An acknowledge that returns a vector drops DRIR<55> in the same call when
      no device line has moved, whatever came before. */
  lemma IackDropsBridge(cfg: Config, g: Glue, events: seq<Event>, d: Devices)
    requires cfg.Valid() && cfg.iic != BRIDGE_LINE && Mirrored(g)
    requires forall e | e in events :: KeepsOffBridge(e)
    requires var r := Run(cfg, g, events); OutputAsserted(r.pic) && Unchanged(r.pic, d)
    ensures BRIDGE_LINE !in Iack(cfg, Run(cfg, g, events), d).0.cchip.drir
  {
    var r := Run(cfg, g, events);
    var q := PicModel.Acknowledge(r.pic).0;
    RunMirrored(cfg, g, events);
    PicRuns.AckDrops(r.pic);
    assert q == PicModel.Next(r.pic, Ack);
    assert q.lastInput == r.pic.lastInput;
    DriveUnchanged(q, d);
    EvalMirrors(cfg, r.(pic := q), d);
  }

  /** A chipset reset keeps the mirror if and only if the cached level is low. */
  lemma ResetMirroredIff(g: Glue, rev: Byte)
    ensures Mirrored(Reset(g, rev)) <==> !g.level
  {
  }

  function EvalAll(cfg: Config, g: Glue, ds: seq<Devices>): Glue
    requires cfg.Valid()
    decreases ds
  {
    if ds == [] then g else EvalAll(cfg, Eval(cfg, g, ds[0]), ds[1..])
  }

  /** The PIC output is found high by every one of these evaluations. */
  ghost predicate FoundHigh(cfg: Config, g: Glue, ds: seq<Devices>)
    requires cfg.Valid()
    decreases ds
  {
    ds == [] || (OutputAsserted(Eval(cfg, g, ds[0]).pic) && FoundHigh(cfg, Eval(cfg, g, ds[0]), ds[1..]))
  }

  /** With the level cached high, the interrupt is lost: until the PIC output
      falls, no evaluation raises DRIR<55> again. */
  lemma {:induction false} ResetLosesBridge(cfg: Config, g: Glue, rev: Byte, ds: seq<Devices>)
    requires cfg.Valid() && cfg.iic != BRIDGE_LINE && g.level && FoundHigh(cfg, Reset(g, rev), ds)
    ensures BRIDGE_LINE !in EvalAll(cfg, Reset(g, rev), ds).cchip.drir
  {
    LevelHides(cfg, Reset(g, rev), ds);
  }

  lemma {:induction false} LevelHides(cfg: Config, g: Glue, ds: seq<Devices>)
    requires cfg.Valid() && cfg.iic != BRIDGE_LINE
    requires g.level && BRIDGE_LINE !in g.cchip.drir && FoundHigh(cfg, g, ds)
    ensures BRIDGE_LINE !in EvalAll(cfg, g, ds).cchip.drir
    decreases ds
  {
    if ds != [] { LevelHides(cfg, Eval(cfg, g, ds[0]), ds[1..]); }
  }

  /** The operation leaves the IIC line alone. */
  predicate KeepsOffIic(cfg: Config, e: Event) {
    e.CchipCall? && (e.op.Assert? || e.op.Deassert?) ==> e.op.line != cfg.iic
  }

  lemma EvalIicMirrors(cfg: Config, g: Glue, d: Devices)
    requires cfg.Valid() && 0 <= cfg.iic != BRIDGE_LINE && IicMirrored(cfg, g)
    ensures IicMirrored(cfg, Eval(cfg, g, d))
    ensures cfg.iic in Eval(cfg, g, d).cchip.drir <==> d.iic
  {
  }

  /** In every run the IIC controller's line, too, equals its cached level. */
  lemma {:induction false} RunIicMirrored(cfg: Config, g: Glue, events: seq<Event>)
    requires cfg.Valid() && 0 <= cfg.iic != BRIDGE_LINE && IicMirrored(cfg, g)
    requires forall e | e in events :: KeepsOffIic(cfg, e)
    ensures IicMirrored(cfg, Run(cfg, g, events))
    decreases events
  {
    if events != [] {
      var e := events[0];
      assert KeepsOffIic(cfg, e);
      match e {
        case EvalEvent(d) => EvalIicMirrors(cfg, g, d);
        case IackEvent(d) => EvalIicMirrors(cfg, g.(pic := PicModel.Acknowledge(g.pic).0), d);
        case CchipCall(op) => PerformKeepsLine(cfg.cpus, g.cchip, op, cfg.iic);
        case Tick(_) => PerformKeepsLine(cfg.cpus, g.cchip, FireTimer, cfg.iic);
        case _ =>
      }
      RunIicMirrored(cfg, Next(cfg, g, e), events[1..]);
    }
  }

  // ---- The timer ----

  function Chunks(cfg: Config, g: Glue, chunks: seq<nat>): Glue
    decreases chunks
  {
    if chunks == [] then g else Chunks(cfg, Advance(cfg, g, chunks[0]), chunks[1..])
  }

  function Sum(chunks: seq<nat>): nat {
    if chunks == [] then 0 else chunks[0] + Sum(chunks[1..])
  }

  /** Firing twice is firing once. */
  lemma ClockedTwice(cpus: int, g: Glue, now: Quad, fire: bool, later: Quad, again: bool)
    ensures Clocked(cpus, Clocked(cpus, g, now, fire), later, again) == Clocked(cpus, g, later, fire || again)
  {
    var once := Perform(cpus, g.cchip, FireTimer);
    var twice := Perform(cpus, once, FireTimer);
    assert twice.misc == once.misc;
    assert twice.irq2 == once.irq2;
  }

  lemma SameCount(c: nat, a: nat, b: nat)
    ensures ((c + a) % TWO64 + b) % TWO64 == (c + (a + b)) % TWO64
  {
  }

  lemma BitSplits(bit: nat, c: Quad, a: nat, b: nat)
    requires Pow2(bit) <= TWO63 && c % Pow2(bit) + a + b < TWO64
    ensures var p, mid := Pow2(bit), (c + a) % TWO64;
            && mid % p + b <= c % p + a + b
            && (Fires(p, c, a + b) <==> Fires(p, c, a) || Fires(p, mid, b))
            && (mid + b) % TWO64 == (c + (a + b)) % TWO64
  {
    var m := PeriodDivides(bit);
    FiresSplits(Pow2(bit), m, c, a, b);
    SameCount(c, a, b);
  }

  /** A step by way of a middle point. */
  lemma AdvanceBy(cfg: Config, g: Glue, a: nat, b: nat, fire: bool, again: bool)
    requires fire == Fires(Pow2(cfg.bit), g.cycles, a)
    requires again == Fires(Pow2(cfg.bit), (g.cycles + a) % TWO64, b)
    ensures Advance(cfg, Advance(cfg, g, a), b) ==
            Clocked(cfg.cpus, g, ((g.cycles + a) % TWO64 + b) % TWO64, fire || again)
  {
    var mid: Quad := (g.cycles + a) % TWO64;
    ClockedTwice(cfg.cpus, g, mid, fire, (mid + b) % TWO64, again);
  }

  lemma AdvanceTwice(cfg: Config, g: Glue, a: nat, b: nat)
    requires cfg.Valid() && g.cycles % Pow2(cfg.bit) + a + b < TWO64
    ensures Advance(cfg, Advance(cfg, g, a), b) == Advance(cfg, g, a + b)
  {
    BitSplits(cfg.bit, g.cycles, a, b);
    AdvanceBy(cfg, g, a, b, Fires(Pow2(cfg.bit), g.cycles, a), Fires(Pow2(cfg.bit), (g.cycles + a) % TWO64, b));
  }

  lemma AdvanceNothing(cfg: Config, g: Glue)
    ensures Advance(cfg, g, 0) == g
  {
  }

  /** For every timer bit, and across wraps of the counter: however cycles are
      cut into chunks, the chipset ends in the state that one step over all of
      them gives, as long as they are less than a whole turn of the counter from
      the start of the period. */
  lemma {:induction false} ChunkingIrrelevant(cfg: Config, g: Glue, chunks: seq<nat>)
    requires cfg.Valid() && g.cycles % Pow2(cfg.bit) + Sum(chunks) < TWO64
    ensures Chunks(cfg, g, chunks) == Advance(cfg, g, Sum(chunks))
    decreases chunks
  {
    if chunks == [] {
      AdvanceNothing(cfg, g);
    } else {
      AdvanceTwice(cfg, g, chunks[0], Sum(chunks[1..]));
      BitSplits(cfg.bit, g.cycles, chunks[0], Sum(chunks[1..]));
      ChunkingIrrelevant(cfg, Advance(cfg, g, chunks[0]), chunks[1..]);
    }
  }

  /** A step short of a whole turn of the counter raises ITINTR and the timer
      latch of every configured CPU if a tick falls in it, and otherwise leaves
      the Cchip alone.  Either way the counter moves on modulo 2^64 and nothing
      else of the chipset moves. */
  lemma StepTicks(cfg: Config, g: Glue, cycles: Quad)
    requires cfg.Valid() && g.cycles % Pow2(cfg.bit) + cycles < TWO64
    ensures var r := Advance(cfg, g, cycles);
            && r == g.(cycles := (g.cycles + cycles) % TWO64, cchip := r.cchip)
            && (TickIn(cfg.bit, g.cycles, cycles) ==> CchipRuns.Ticked(cfg.cpus, g.cchip, r.cchip))
            && (!TickIn(cfg.bit, g.cycles, cycles) ==> r.cchip == g.cchip)
  {
    TickIff(cfg.bit, g.cycles, cycles);
    CchipRuns.FireTicks(cfg.cpus, g.cchip);
  }

  /** Beyond that bound one step misses the timer although it contains whole
      periods, which any finer chunking would have noticed. */
  lemma WholeTurnMisses(cfg: Config, g: Glue, cycles: Quad)
    requires cfg.Valid() && g.cycles % Pow2(cfg.bit) + cycles >= TWO64
    ensures Advance(cfg, g, cycles).cchip == g.cchip
    ensures Crosses(Pow2(cfg.bit), g.cycles, g.cycles + cycles)
  {
    var p := Pow2(cfg.bit);
    var m := PeriodDivides(cfg.bit);
    FiresIff(p, m, g.cycles, cycles);
    CrossesFrom(p, g.cycles, cycles);
  }

  // ---- The object ----

  class TsunamiChipset {
    const cchip: Cchip.TsunamiCchip
    const pic: Pic.Pic8259Pair
    const timerBit: nat
    const iicBit: int
    var lastPicLevel: bool
    var lastIicLevel: bool
    var cycleAccum: Quad

    ghost function Build(): Config {
      Config(cchip.cpuCount, timerBit, iicBit)
    }

    ghost function State(): Glue
      reads this, cchip, pic
    {
      Glue(pic.State(), cchip.State(), lastPicLevel, lastIicLevel, cycleAccum)
    }

    /** The timer bit follows from the profile clock, the IIC line from the
        environment; a line outside 0..55 switches it off. */
    constructor (cpuCount: int, rev: Byte, mem: nat, typhoon: bool, clockHz: Quad, iicSetting: int)
      ensures fresh(cchip) && fresh(pic)
      ensures cchip.cpuCount == cpuCount
      ensures cchip.Windows() == CchipCsr.Registers(Aar.ResetAll(mem, typhoon), [{}, {}, {}, {}])
      ensures clockHz >= 1024 ==> Nearest(clockHz / 1024, timerBit)
      ensures iicBit == if 0 <= iicSetting <= 55 then iicSetting else -1
      ensures Build().Valid()
      ensures State() == Glue(RESET_PAIR, CchipRuns.ResetState(rev), false, false, 0)
      ensures Mirrored(State()) && IicMirrored(Build(), State())
    {
      cchip := new Cchip.TsunamiCchip(cpuCount, rev, mem, typhoon);
      pic := new Pic.Pic8259Pair();
      var bit := RoundLog2Nearest(clockHz / 1024);
      timerBit := bit;
      iicBit := if 0 <= iicSetting <= 55 then iicSetting else -1;
      lastPicLevel := false;
      lastIicLevel := false;
      cycleAccum := 0;
    }

    method DriveLines(d: Devices)
      modifies pic
      ensures pic.State() == Drive(old(pic.State()), d)
    {
      pic.SetIrqInput(4, d.com1);
      pic.SetIrqInput(3, d.com2);
      pic.SetIrqInput(6, d.fdc);
    }

    method PutLine(line: Line, level: bool)
      modifies cchip`drir
      ensures cchip.State() == Put(old(cchip.State()), line, level)
    {
      if level {
        cchip.AssertInterrupt(line);
      } else {
        cchip.DeassertInterrupt(line);
      }
    }

    method MirrorPic(d: Devices)
      modifies this`lastPicLevel, cchip`drir, pic
      ensures pic.State() == Drive(old(pic.State()), d) && lastPicLevel == OutputAsserted(pic.State())
      ensures cchip.State() == if lastPicLevel == old(lastPicLevel) then old(cchip.State())
                               else Put(old(cchip.State()), BRIDGE_LINE, lastPicLevel)
    {
      DriveLines(d);
      var lvl := pic.Resolve();
      var level := lvl >= 0;
      if level != lastPicLevel {
        lastPicLevel := level;
        PutLine(BRIDGE_LINE, level);
      }
    }

    method EvalDeviceIrqs(d: Devices)
      requires Build().Valid()
      modifies this`lastPicLevel, this`lastIicLevel, cchip`drir, pic
      ensures State() == Eval(Build(), old(State()), d)
    {
      MirrorPic(d);
      if iicBit >= 0 && d.iic != lastIicLevel {
        lastIicLevel := d.iic;
        PutLine(iicBit, d.iic);
      }
    }

    method AcknowledgeDeviceInterrupt(d: Devices) returns (vec: Vector)
      requires Build().Valid()
      modifies this`lastPicLevel, this`lastIicLevel, cchip`drir, pic
      ensures State() == Iack(Build(), old(State()), d).0
      ensures vec == PicModel.Acknowledge(old(pic.State())).1
    {
      vec := pic.Acknowledge();
      EvalDeviceIrqs(d);
    }

    /** The read of the interrupt-acknowledge window. */
    method ReadIack(d: Devices) returns (b: Byte)
      requires Build().Valid()
      modifies this`lastPicLevel, this`lastIicLevel, cchip`drir, pic
      ensures (State(), b) == Iack(Build(), old(State()), d)
    {
      var vec := AcknowledgeDeviceInterrupt(d);
      b := if vec.Vector? then vec.byte else SPURIOUS;
    }

    method Step(cycles: Quad, spurious: nat)
      modifies this`cycleAccum, cchip`misc, cchip`pendingIrq2
      ensures State() == Advance(Build(), old(State()), cycles)
      ensures cycleAccum == (old(cycleAccum) + cycles) % TWO64
      ensures Build().Valid() && old(cycleAccum) % Pow2(timerBit) + cycles < TWO64 ==>
                if TickIn(timerBit, old(cycleAccum), cycles)
                then CchipRuns.Ticked(cchip.cpuCount, old(cchip.State()), cchip.State())
                else cchip.State() == old(cchip.State())
    {
      if Build().Valid() && cycleAccum % Pow2(timerBit) + cycles < TWO64 {
        StepTicks(Build(), State(), cycles);
      }
      var prev := cycleAccum;
      cycleAccum := (cycleAccum + cycles) % TWO64;
      if cycleAccum / Pow2(timerBit) != prev / Pow2(timerBit) {
        cchip.FireIntervalTimer(spurious);
      }
    }
  }
}

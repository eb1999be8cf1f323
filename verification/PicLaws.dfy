/** What the operations of the 8259A pair leave behind, told from their history:
    line levels, captured edges, masks, vector bases, and what its ports read
    (chipsetLib/Pic8259Pair.h). */
module PicLaws {
  import opened Words
  import opened Arithmetic
  import opened Numbers
  import opened PicModel
  import opened PicRuns
  import opened History

  lemma {:induction false} RunSnoc(p: Pair, ops: seq<Op>)
    requires ops != []
    ensures Run(p, ops) == Next(Run(p, ops[..|ops| - 1]), ops[|ops| - 1])
    decreases ops
  {
    if |ops| > 1 {
      RunSnoc(Next(p, ops[0]), ops[1..]);
      assert ops[..|ops| - 1][1..] == ops[1..][..|ops| - 2];
    }
  }

  /** The state before operation number k. */
  function At(p: Pair, ops: seq<Op>, k: nat): Pair
    requires k <= |ops|
  {
    Run(p, ops[..k])
  }

  lemma AtNext(p: Pair, ops: seq<Op>, k: nat)
    requires k < |ops|
    ensures At(p, ops, k + 1) == Next(At(p, ops, k), ops[k])
  {
    RunSnoc(p, ops[..k + 1]);
    assert ops[..k + 1][..k] == ops[..k];
  }

  // ---- Line levels and captured edges ----

  /** The operation drives line l. */
  predicate Drives(op: Op, l: IrqLine) { op.Input? && op.line % 16 == l }

  /** The level to which the first k operations leave line l driven. */
  function Driven(start: bool, ops: seq<Op>, l: IrqLine, k: nat): bool
    requires k <= |ops|
  {
    if k == 0 then start
    else if Drives(ops[k - 1], l) then ops[k - 1].level
    else Driven(start, ops, l, k - 1)
  }

  lemma StepLevel(p: Pair, op: Op, l: IrqLine)
    ensures Next(p, op).lastInput[l] == if Drives(op, l) then op.level else p.lastInput[l]
  {
  }

  /** In every run the remembered level of a line is the level it was last driven
      to. */
  lemma {:induction false} LevelIsLastDriven(p: Pair, ops: seq<Op>, l: IrqLine, k: nat)
    requires k <= |ops|
    ensures At(p, ops, k).lastInput[l] == Driven(p.lastInput[l], ops, l, k)
    decreases k
  {
    if k > 0 {
      LevelIsLastDriven(p, ops, l, k - 1);
      AtNext(p, ops, k - 1);
      StepLevel(At(p, ops, k - 1), ops[k - 1], l);
    }
  }

  /** The operation drops a captured request on line l: it serves it, or
      reinitializes its unit, or, on line 2, acknowledges a slave line. */
  predicate Drops(p: Pair, op: Op, l: IrqLine) {
    Consumes(p, op, l) || (l == CASCADE && op.Ack? && PendingLevel(p) >= 8)
  }

  /** The operation is a rising edge on line l. */
  predicate Rises(p: Pair, op: Op, l: IrqLine) {
    Drives(op, l) && op.level && !p.lastInput[l]
  }

  lemma InputRequests(p: Pair, line: nat, level: bool, l: IrqLine)
    ensures Requested(Next(p, Input(line, level)), l) <==> Requested(p, l) || Rises(p, Input(line, level), l)
  {
  }

  lemma QuietRequests(p: Pair, op: Op, l: IrqLine)
    requires !op.Input? && !Requested(p, l)
    ensures !Requested(Next(p, op), l)
  {
  }

  /** One step, on every line: a request is there afterwards if and only if the
      step is its rising edge, or it was there and the step does not drop it. */
  lemma StepRequest(p: Pair, op: Op, l: IrqLine)
    ensures Requested(Next(p, op), l) <==> Rises(p, op, l) || (Requested(p, l) && !Drops(p, op, l))
  {
    if op.Input? {
      InputRequests(p, op.line, op.level, l);
    } else if Requested(p, l) {
      if l == CASCADE { StepKeepsLine2(p, op); } else { StepKeepsEdge(p, op, l); }
    } else {
      QuietRequests(p, op, l);
    }
  }

  /** Which operations of a run raise line l from low, and which drop it. */
  function RisingEdges(p: Pair, ops: seq<Op>, l: IrqLine): nat -> bool {
    (i: nat) => i < |ops| && Drives(ops[i], l) && ops[i].level && !Driven(p.lastInput[l], ops, l, i)
  }

  function Droppings(p: Pair, ops: seq<Op>, l: IrqLine): nat -> bool {
    (i: nat) => i < |ops| && Drops(At(p, ops, i), ops[i], l)
  }

  function Requests(p: Pair, ops: seq<Op>, l: IrqLine): nat -> bool {
    (i: nat) => i <= |ops| && Requested(At(p, ops, i), l)
  }

  /** In every run and on every line, a request is captured if and only if the
      line was driven high from low after it was last dropped, however often
      before; or it was captured at the start and has not been dropped. */
  lemma RequestedIff(p: Pair, ops: seq<Op>, l: IrqLine, k: nat)
    requires k <= |ops|
    ensures Requested(At(p, ops, k), l) <==>
            Up(Requested(p, l), RisingEdges(p, ops, l), Droppings(p, ops, l), k)
  {
    var level, edges, drops := Requests(p, ops, l), RisingEdges(p, ops, l), Droppings(p, ops, l);
    forall i: nat | i < k ensures level(i + 1) <==> edges(i) || (level(i) && !drops(i)) {
      AtNext(p, ops, i);
      LevelIsLastDriven(p, ops, l, i);
      StepRequest(At(p, ops, i), ops[i], l);
    }
    IsUp(level, edges, drops, k);
  }

  // ---- Programming ----

  predicate IsBase(base: nat) { base == MASTER_BASE || base == SLAVE_BASE }

  /** The unit at a base port, and the pair with another unit there. */
  function UnitAt(p: Pair, base: nat): Unit { if base == MASTER_BASE then p.master else p.slave }

  function WithUnit(p: Pair, base: nat, u: Unit): Pair {
    if base == MASTER_BASE then p.(master := u) else p.(slave := u)
  }

  /** A data-port write to a unit that is not being initialized. */
  predicate Masks(p: Pair, op: Op, base: nat) {
    op.Write? && op.port == base + 1 && (UnitAt(p, base).init.Ready? || UnitAt(p, base).init.PowerOn?)
  }

  predicate Reinitializes(op: Op, base: nat) { op.Write? && op.port == base && IsIcw1(op.v) }

  /** What a step leaves in a unit's mask. */
  lemma StepMask(p: Pair, op: Op, base: nat)
    requires IsBase(base)
    ensures UnitAt(Next(p, op), base).imr ==
            if Reinitializes(op, base) then {} else if Masks(p, op, base) then op.v else UnitAt(p, base).imr
  {
  }

  /** A Ready unit stays Ready, and keeps its vector base, until ICW1. */
  lemma StepReady(p: Pair, op: Op, base: nat)
    requires IsBase(base) && UnitAt(p, base).init.Ready? && !Reinitializes(op, base)
    ensures UnitAt(Next(p, op), base).init.Ready?
    ensures UnitAt(Next(p, op), base).icw2 == UnitAt(p, base).icw2
  {
    match op {
      case Write(port, v) => WriteReady(p, port, v, base);
      case Ack => AckReady(p, base);
      case Read(_) =>
      case Input(_, _) =>
    }
  }

  lemma AckReady(p: Pair, base: nat)
    ensures UnitAt(Next(p, Ack), base).init == UnitAt(p, base).init
    ensures UnitAt(Next(p, Ack), base).icw2 == UnitAt(p, base).icw2
  {
  }

  lemma WriteReady(p: Pair, port: nat, v: Byte, base: nat)
    requires IsBase(base) && UnitAt(p, base).init.Ready? && !Reinitializes(Write(port, v), base)
    ensures UnitAt(WritePort(p, port, v), base).init.Ready?
    ensures UnitAt(WritePort(p, port, v), base).icw2 == UnitAt(p, base).icw2
  {
  }

  /** The last byte written to the unit's data port. */
  function LastMask(start: Byte, ops: seq<Op>, base: nat, k: nat): Byte
    requires k <= |ops|
  {
    if k == 0 then start
    else if ops[k - 1].Write? && ops[k - 1].port == base + 1 then ops[k - 1].v
    else LastMask(start, ops, base, k - 1)
  }

  /** In every run without ICW1 a Ready unit's mask is the last byte written to
      its data port, whatever else is read, written, driven or acknowledged, and
      its vector base stays. */
  lemma {:induction false} MaskIsLastWritten(p: Pair, ops: seq<Op>, base: nat, k: nat)
    requires IsBase(base) && UnitAt(p, base).init.Ready? && k <= |ops|
    requires forall i | 0 <= i < k :: !Reinitializes(ops[i], base)
    ensures UnitAt(At(p, ops, k), base).init.Ready?
    ensures UnitAt(At(p, ops, k), base).imr == LastMask(UnitAt(p, base).imr, ops, base, k)
    ensures UnitAt(At(p, ops, k), base).icw2 == UnitAt(p, base).icw2
    decreases k
  {
    if k > 0 {
      MaskIsLastWritten(p, ops, base, k - 1);
      AtNext(p, ops, k - 1);
      StepMask(At(p, ops, k - 1), ops[k - 1], base);
      StepReady(At(p, ops, k - 1), ops[k - 1], base);
    }
  }

  /** ICW1 to ICW4 and OCW1, as firmware writes them. */
  function Program(base: nat, icw1: Byte, icw2: Byte, icw3: Byte, icw4: Byte, mask: Byte): seq<Op> {
    [Write(base, icw1), Write(base + 1, icw2), Write(base + 1, icw3), Write(base + 1, icw4), Write(base + 1, mask)]
  }

  /** Programming works from every state.  Afterwards the unit is Ready with
      nothing requested or in service, its mask is the fifth byte, its vector
      base is the second with the low three bits clear, and nothing else of the
      pair has moved. */
  lemma Programmed(p: Pair, base: nat, icw1: Byte, icw2: Byte, icw3: Byte, icw4: Byte, mask: Byte)
    requires IsBase(base) && IsIcw1(icw1)
    ensures var r := Run(p, Program(base, icw1, icw2, icw3, icw4, mask));
            var u := UnitAt(r, base);
            && u.init.Ready? && u.irr == {} && u.isr == {} && u.imr == mask
            && (forall b: nat :: b in u.icw2 <==> b >= 3 && b in icw2)
            && !u.pollArmed && !u.readIsr
            && r == WithUnit(p, base, u)
  {
    var ops := Program(base, icw1, icw2, icw3, icw4, mask);
    var p1 := Next(p, ops[0]);
    var p2 := Next(p1, ops[1]);
    var p3 := Next(p2, ops[2]);
    var p4 := Next(p3, ops[3]);
    var p5 := Next(p4, ops[4]);
    assert UnitAt(p1, base).init.ExpectIcw2? && p1 == WithUnit(p, base, UnitAt(p1, base));
    assert UnitAt(p2, base).init.ExpectIcw3? && p2 == WithUnit(p, base, UnitAt(p2, base));
    assert UnitAt(p3, base).init.ExpectIcw4? && p3 == WithUnit(p, base, UnitAt(p3, base));
    assert UnitAt(p4, base).init.Ready? && p4 == WithUnit(p, base, UnitAt(p4, base));
    RunFive(p, ops);
  }

  lemma RunFive(p: Pair, ops: seq<Op>)
    requires |ops| == 5
    ensures Run(p, ops) == Next(Next(Next(Next(Next(p, ops[0]), ops[1]), ops[2]), ops[3]), ops[4])
  {
    var p1 := Next(p, ops[0]);
    var p2 := Next(p1, ops[1]);
    var p3 := Next(p2, ops[2]);
    var p4 := Next(p3, ops[3]);
    assert ops[1..][1..] == ops[2..] && ops[2..][1..] == ops[3..] && ops[3..][1..] == ops[4..];
    assert ops[4..][1..] == [];
    assert Run(p, ops) == Run(p1, ops[1..]) == Run(p2, ops[2..]) == Run(p3, ops[3..]) == Run(p4, ops[4..]);
    assert Run(p4, ops[4..]) == Run(Next(p4, ops[4]), []);
  }

  /** From power-on nothing asserts until the master is initialized. */
  lemma {:induction false} PowerOnSilent(ops: seq<Op>, k: nat)
    requires k <= |ops| && forall i | 0 <= i < k :: !Reinitializes(ops[i], MASTER_BASE)
    ensures !OutputAsserted(At(RESET_PAIR, ops, k)) && At(RESET_PAIR, ops, k).master.init.PowerOn?
    decreases k
  {
    if k > 0 {
      PowerOnSilent(ops, k - 1);
      AtNext(RESET_PAIR, ops, k - 1);
    }
  }

  /** At power-on both masks read all ones. */
  lemma PowerOnMasks()
    ensures forall b: nat :: b in ReadPort(RESET_PAIR, 0x21).1 * ReadPort(RESET_PAIR, 0xA1).1 <==> b < 8
  {
  }

  // ---- What the ports read ----

  lemma {:induction false} NumberOfByteBelow(b: Byte, k: nat)
    requires 8 <= k
    ensures NumberBelow(b, k) == NumberBelow(b, 8)
    decreases k
  {
    if k > 8 { NumberOfByteBelow(b, k - 1); }
  }

  /** The low three bits of a byte, and the others, as numbers. */
  function LowPart(b: Byte): nat {
    (if 0 in b then 1 else 0) + (if 1 in b then 2 else 0) + (if 2 in b then 4 else 0)
  }

  function HighPart(b: Byte): nat {
    (if 3 in b then 8 else 0) + (if 4 in b then 16 else 0) + (if 5 in b then 32 else 0)
    + (if 6 in b then 64 else 0) + (if 7 in b then 128 else 0)
  }

  lemma ByteNumber(b: Byte)
    ensures Number(b) == LowPart(b) + HighPart(b)
  {
    NumberOfByteBelow(b, 64);
    assert Pow2(0) == 1 && Pow2(1) == 2 && Pow2(2) == 4 && Pow2(3) == 8;
    assert Pow2(4) == 16 && Pow2(5) == 32 && Pow2(6) == 64 && Pow2(7) == 128;
    assert NumberBelow(b, 1) == if 0 in b then 1 else 0;
    assert NumberBelow(b, 2) == NumberBelow(b, 1) + if 1 in b then 2 else 0;
    assert NumberBelow(b, 3) == NumberBelow(b, 2) + if 2 in b then 4 else 0;
    assert NumberBelow(b, 4) == NumberBelow(b, 3) + if 3 in b then 8 else 0;
    assert NumberBelow(b, 5) == NumberBelow(b, 4) + if 4 in b then 16 else 0;
    assert NumberBelow(b, 6) == NumberBelow(b, 5) + if 5 in b then 32 else 0;
    assert NumberBelow(b, 7) == NumberBelow(b, 6) + if 6 in b then 64 else 0;
  }

  lemma LevelPart(base: Byte, l: Level)
    requires base !! {0, 1, 2}
    ensures LowPart(base + LevelBits(l)) == l && LowPart(base) == 0
  {
    assert l == l % 2 + 2 * (l / 2 % 2) + 4 * (l / 4);
  }

  lemma BasePart(base: Byte, l: Level)
    ensures HighPart(base + LevelBits(l)) == HighPart(base)
  {
  }

  /** A level ORed into a base whose low three bits are clear adds to it. */
  lemma LevelAdds(base: Byte, l: Level)
    requires base !! {0, 1, 2}
    ensures Number(base + LevelBits(l)) == Number(base) + l
  {
    ByteNumber(base);
    ByteNumber(base + LevelBits(l));
    LevelPart(base, l);
    BasePart(base, l);
  }

  /** OCW3 with the register-read command selects what base reads return, and
      reading disturbs nothing. */
  lemma SelectedRead(u: Unit, v: Byte)
    requires IsOcw3(v) && 1 in v && 2 !in v && !u.pollArmed
    ensures var w := WriteBase(u, v);
            ReadBase(w) == (w, if 0 in v then u.isr else u.irr)
            && w.irr == u.irr && w.isr == u.isr && w.imr == u.imr && w.init == u.init
  {
  }

  /** OCW3 with the poll bit makes the next base read an acknowledge: it returns
      128 plus the level and puts it in service, or returns 0 when there is none;
      and it does so once. */
  lemma Polled(u: Unit, v: Byte)
    requires IsOcw3(v) && 2 in v
    ensures var (r, b) := ReadBase(WriteBase(u, v));
            var l := UnitPending(u, {});
            && Number(b) == (if l < 0 then 0 else 128 + l)
            && r.irr == (if l < 0 then u.irr else u.irr - {l})
            && r.isr == (if l < 0 then u.isr else u.isr + {l})
            && ReadBase(r) == (r, if r.readIsr then r.isr else r.irr)
  {
    var l := UnitPending(u, {});
    assert UnitPending(WriteBase(u, v), {}) == l;
    if l >= 0 {
      LevelAdds({7}, l);
      ByteNumber({7});
    } else {
      ByteNumber({});
    }
  }

  /** Masks and ELCRs read back what is in them, and reading disturbs nothing;
      every other port but the two bases floats high. */
  lemma OtherReads(p: Pair, port: nat)
    ensures port == 0x21 ==> ReadPort(p, port) == (p, p.master.imr)
    ensures port == 0xA1 ==> ReadPort(p, port) == (p, p.slave.imr)
    ensures port == 0x20 ==> ReadPort(p, port) == (p.(master := ReadBase(p.master).0), ReadBase(p.master).1)
    ensures port == 0xA0 ==> ReadPort(p, port) == (p.(slave := ReadBase(p.slave).0), ReadBase(p.slave).1)
    ensures port != 0x20 && port != 0xA0 ==> ReadPort(p, port).0 == p
    ensures port !in {0x20, 0x21, 0xA0, 0xA1, 0x4D0, 0x4D1} ==> ReadPort(p, port).1 == ALL
  {
  }

  /** ELCR writes read back, and reach nothing else. */
  lemma ElcrReadBack(p: Pair, port: nat, v: Byte)
    requires port == 0x4D0 || port == 0x4D1
    ensures var q := WritePort(p, port, v);
            ReadPort(q, port).1 == v && q.master == p.master && q.slave == p.slave && q.lastInput == p.lastInput
            && ReadPort(q, 0x9A1 - port).1 == ReadPort(p, 0x9A1 - port).1
  {
  }

  /** When a unit's poll is armed, and which register its base reads return. */
  lemma StepSelection(p: Pair, op: Op, base: nat)
    requires IsBase(base)
    ensures UnitAt(Next(p, op), base).pollArmed ==
            if Reinitializes(op, base) || op == Read(base) then false
            else UnitAt(p, base).pollArmed || (op.Write? && op.port == base && IsOcw3(op.v) && 2 in op.v)
    ensures UnitAt(Next(p, op), base).readIsr ==
            if Reinitializes(op, base) then false
            else if op.Write? && op.port == base && IsOcw3(op.v) && 1 in op.v then 0 in op.v
            else UnitAt(p, base).readIsr
  {
    match op {
      case Write(port, v) => WriteSelection(UnitAt(p, base), v);
      case Read(_) =>
      case Ack =>
      case Input(_, _) =>
    }
  }

  lemma WriteSelection(u: Unit, v: Byte)
    ensures WriteBase(u, v).pollArmed == (!IsIcw1(v) && (u.pollArmed || (IsOcw3(v) && 2 in v)))
    ensures WriteBase(u, v).readIsr ==
            (!IsIcw1(v) && if IsOcw3(v) && 1 in v then 0 in v else u.readIsr)
    ensures WriteData(u, v).pollArmed == u.pollArmed && WriteData(u, v).readIsr == u.readIsr
  {
  }

  // ---- The command bytes ----

  function Digit(c: bool): nat { if c then 1 else 0 }

  lemma Digits(n: nat, d0: nat, d1: nat, d2: nat, d3: nat, d4: nat, high: nat)
    requires d0 < 2 && d1 < 2 && d2 < 2 && d3 < 2 && d4 < 2
    requires n == d0 + 2 * d1 + 4 * d2 + 8 * d3 + 16 * d4 + 32 * high
    ensures n % 8 == d0 + 2 * d1 + 4 * d2 && n / 8 % 2 == d3 && n / 16 % 2 == d4 && n / 32 == high
  {
    assert n / 8 == d3 + 2 * d4 + 4 * high;
    assert n / 16 == d4 + 2 * high;
  }

  /** How a base-port write is told apart, by the number written: bit 4 makes it
      ICW1; else bit 3 makes it OCW3; else the top three bits are 001 for a
      non-specific EOI and 011 for a specific one, whose level is the low three
      bits. */
  lemma CommandBytes(w: Byte)
    ensures var n := Number(w);
            && (IsIcw1(w) <==> n / 16 % 2 == 1)
            && (IsOcw3(w) <==> n / 16 % 2 == 0 && n / 8 % 2 == 1)
            && (IsAnyEoi(w) <==> n / 16 % 2 == 0 && n / 8 % 2 == 0 && n / 32 == 1)
            && (IsSpecificEoi(w) <==> n / 16 % 2 == 0 && n / 8 % 2 == 0 && n / 32 == 3)
            && LevelOf(w) == n % 8
  {
    ByteNumber(w);
    Digits(Number(w), Digit(0 in w), Digit(1 in w), Digit(2 in w), Digit(3 in w), Digit(4 in w),
           Digit(5 in w) + 2 * Digit(6 in w) + 4 * Digit(7 in w));
  }

  /** A base-port write that is none of the four does nothing. */
  lemma OtherCommandsIgnored(u: Unit, v: Byte)
    requires !IsIcw1(v) && !IsOcw3(v) && !IsAnyEoi(v) && !IsSpecificEoi(v)
    ensures WriteBase(u, v) == u
  {
  }
}

/** What every run of the 8259A pair keeps (chipsetLib/Pic8259Pair.h). */
module PicRuns {
  import opened Words
  import opened PicModel

  // ---- Which line wins ----

  type IrqLine = l: nat | l < 16

  /** Service order: 0, 1, the slave's lines 8-15 through IR2, then 2-7. */
  function Rank(l: IrqLine): nat {
    if l < 2 then l else if l < 8 then l + 8 else l - 6
  }

  /** No level of equal or higher priority is in service. */
  ghost predicate Clear(u: Unit, l: Level) {
    forall m: Level | m <= l :: m !in u.isr
  }

  /** Everything the line needs except the request itself. */
  ghost predicate Open(p: Pair, l: IrqLine) {
    if l < 8 then p.master.init.Ready? && l !in p.master.imr && Clear(p.master, l)
    else
      && p.slave.init.Ready? && l - 8 !in p.slave.imr && Clear(p.slave, l - 8)
      && p.master.init.Ready? && CASCADE !in p.master.imr && Clear(p.master, CASCADE)
  }

  predicate Requested(p: Pair, l: IrqLine) {
    if l < 8 then l in p.master.irr else l - 8 in p.slave.irr
  }

  ghost predicate Deliverable(p: Pair, l: IrqLine) {
    Requested(p, l) && Open(p, l)
  }

  ghost predicate Best(p: Pair, l: IrqLine) {
    Deliverable(p, l) && forall k: IrqLine | Deliverable(p, k) :: Rank(l) <= Rank(k)
  }

  /** A requested level that is clear is matched or beaten by a served one. */
  lemma {:induction false} SomeServed(req: Byte, isr: Byte, l: Level) returns (s: Level)
    requires l in req && forall m: Level | m <= l :: m !in isr
    ensures s <= l && Serves(req, isr, s)
    decreases l
  {
    if m: Level :| m < l && m in req {
      s := SomeServed(req, isr, m);
    } else {
      s := l;
    }
  }

  /** A Ready unit asserts if and only if some request is clear of everything
      in service, and then it presents the highest of them. */
  lemma UnitPendingIs(u: Unit, extra: Byte)
    requires u.init.Ready?
    ensures var r := UnitPending(u, extra);
            && (r >= 0 <==> exists l: Level :: l in u.irr + extra - u.imr && Clear(u, l))
            && (r >= 0 ==> forall l: Level | l in u.irr + extra - u.imr && Clear(u, l) :: r <= l)
  {
    var req := u.irr + extra - u.imr;
    forall l: Level | l in req && Clear(u, l) ensures 0 <= UnitPending(u, extra) <= l {
      var s := SomeServed(req, u.isr, l);
    }
    if UnitPending(u, extra) >= 0 {
      assert Clear(u, UnitPending(u, extra));
    }
  }

  /** The slave is pending exactly when one of its lines could be served if the
      master let it through. */
  lemma SlavePending(p: Pair)
    ensures UnitPending(p.slave, {}) >= 0 <==>
            exists j: Level :: p.slave.init.Ready? && j in p.slave.irr - p.slave.imr && Clear(p.slave, j)
    ensures UnitPending(p.slave, {}) >= 0 ==>
              forall j: Level | j in p.slave.irr - p.slave.imr && Clear(p.slave, j) :: UnitPending(p.slave, {}) <= j
  {
    if p.slave.init.Ready? {
      UnitPendingIs(p.slave, {});
      assert p.slave.irr + {} - p.slave.imr == p.slave.irr - p.slave.imr;
    }
  }

  lemma WinnerDeliverable(p: Pair)
    requires PendingLevel(p) >= 0
    ensures Deliverable(p, PendingLevel(p))
  {
    var slave := UnitPending(p.slave, {});
    var master := UnitPending(p.master, Cascade(p));
    assert Clear(p.master, master);
    if slave >= 0 { assert Clear(p.slave, slave); }
  }

  lemma WinnerBeats(p: Pair, k: IrqLine)
    requires Deliverable(p, k)
    ensures PendingLevel(p) >= 0 && Rank(PendingLevel(p)) <= Rank(k)
  {
    UnitPendingIs(p.master, Cascade(p));
    SlavePending(p);
    var req := p.master.irr + Cascade(p) - p.master.imr;
    if k < 8 {
      assert k in req;
    } else {
      assert k - 8 in p.slave.irr - p.slave.imr;
      assert CASCADE in req;
    }
  }

  /** pendingLevel is the first deliverable line in service order, or -1 exactly
      when no line is deliverable.  A slave line is deliverable only while
      master IR2 is unmasked and the master has none of 0-2 in service. */
  lemma PendingIsBest(p: Pair)
    ensures PendingLevel(p) >= 0 ==> Best(p, PendingLevel(p))
    ensures PendingLevel(p) < 0 <==> forall l: IrqLine :: !Deliverable(p, l)
    ensures forall l: IrqLine :: Best(p, l) ==> PendingLevel(p) == l
  {
    if PendingLevel(p) >= 0 { WinnerDeliverable(p); }
    forall k: IrqLine | Deliverable(p, k)
      ensures PendingLevel(p) >= 0 && Rank(PendingLevel(p)) <= Rank(k)
    {
      WinnerBeats(p, k);
    }
  }

  // ---- The in-service nest ----

  ghost predicate Falling(nest: seq<nat>) {
    forall i, j | 0 <= i < j < |nest| :: nest[i] > nest[j]
  }

  /** The nest, oldest first, lists exactly the levels in service, and each
      entry has higher priority than the ones below it. */
  ghost predicate NestOf(nest: seq<nat>, isr: Byte) {
    Falling(nest) && forall l :: l in nest <==> l in isr
  }

  function Without(nest: seq<nat>, l: nat): seq<nat> {
    if nest == [] then []
    else if nest[0] == l then Without(nest[1..], l)
    else [nest[0]] + Without(nest[1..], l)
  }

  function Pop(nest: seq<nat>): seq<nat> {
    if nest == [] then [] else nest[..|nest| - 1]
  }

  /** The two nests, kept by history alone: an acknowledge or a successful poll
      appends the level it served, a non-specific EOI removes the newest entry,
      a specific EOI removes the level it names, and ICW1 empties the nest. */
  datatype Nests = Nests(master: seq<nat>, slave: seq<nat>)

  function TrackWrite(nest: seq<nat>, v: Byte): seq<nat> {
    if IsIcw1(v) then []
    else if IsAnyEoi(v) then Pop(nest)
    else if IsSpecificEoi(v) then Without(nest, LevelOf(v))
    else nest
  }

  function TrackRead(nest: seq<nat>, u: Unit): seq<nat> {
    var l := UnitPending(u, {});
    if u.pollArmed && l >= 0 then nest + [l] else nest
  }

  function Track(p: Pair, n: Nests, op: Op): Nests {
    match op
    case Ack =>
      var l := PendingLevel(p);
      if l < 0 then n
      else if l < 8 then n.(master := n.master + [l])
      else Nests(n.master + [CASCADE], n.slave + [l - 8])
    case Read(port) =>
      if port == MASTER_BASE then n.(master := TrackRead(n.master, p.master))
      else if port == SLAVE_BASE then n.(slave := TrackRead(n.slave, p.slave))
      else n
    case Write(port, v) =>
      if port == MASTER_BASE then n.(master := TrackWrite(n.master, v))
      else if port == SLAVE_BASE then n.(slave := TrackWrite(n.slave, v))
      else n
    case Input(_, _) => n
  }

  function TrackRun(p: Pair, n: Nests, ops: seq<Op>): Nests
    decreases ops
  {
    if ops == [] then n else TrackRun(Next(p, ops[0]), Track(p, n, ops[0]), ops[1..])
  }

  ghost predicate Nested(p: Pair, n: Nests) {
    NestOf(n.master, p.master.isr) && NestOf(n.slave, p.slave.isr)
  }

  lemma PushNest(nest: seq<nat>, isr: Byte, l: Level)
    requires NestOf(nest, isr) && forall m: Level | m <= l :: m !in isr
    ensures NestOf(nest + [l], isr + {l})
  {
    forall i | 0 <= i < |nest| ensures nest[i] > l {
      assert nest[i] in nest;
    }
  }

  lemma {:induction false} RetireIsLowest(isr: Byte, l: nat, low: Level)
    requires l <= low && low in isr && forall m: Level | m < low :: m !in isr
    ensures Retire(isr, l) == isr - {low}
    decreases 8 - l
  {
    if l < low { RetireIsLowest(isr, l + 1, low); }
  }

  lemma {:induction false} RetireNone(l: nat)
    requires l <= 8
    ensures Retire({}, l) == {}
    decreases 8 - l
  {
    if l < 8 { RetireNone(l + 1); }
  }

  /** The scan of a non-specific EOI finds the newest entry of the nest. */
  lemma PopNest(nest: seq<nat>, isr: Byte)
    requires NestOf(nest, isr)
    ensures NestOf(Pop(nest), Retire(isr, 0))
    ensures nest != [] ==> Retire(isr, 0) == isr - {nest[|nest| - 1]}
  {
    if nest == [] {
      assert isr == {};
      RetireNone(0);
    } else {
      var low := nest[|nest| - 1];
      assert low in nest;
      assert forall m | m in nest :: low <= m;
      RetireIsLowest(isr, 0, low);
      forall l ensures l in Pop(nest) <==> l in isr - {low} {
        if l in isr && l != low {
          var i :| 0 <= i < |nest| && nest[i] == l;
          assert Pop(nest)[i] == l;
        }
      }
    }
  }

  lemma {:induction false} WithoutIs(nest: seq<nat>, l: nat)
    requires Falling(nest)
    ensures Falling(Without(nest, l))
    ensures forall k :: k in Without(nest, l) <==> k in nest && k != l
    decreases nest
  {
    if nest != [] {
      WithoutIs(nest[1..], l);
      assert nest == [nest[0]] + nest[1..];
      var rest := Without(nest[1..], l);
      forall i | 0 <= i < |rest| ensures rest[i] < nest[0] {
        assert rest[i] in rest;
        assert rest[i] in nest[1..];
      }
    }
  }

  lemma WriteNest(nest: seq<nat>, u: Unit, v: Byte)
    requires NestOf(nest, u.isr)
    ensures NestOf(TrackWrite(nest, v), WriteBase(u, v).isr)
  {
    if IsAnyEoi(v) {
      PopNest(nest, u.isr);
    } else if IsSpecificEoi(v) {
      WithoutIs(nest, LevelOf(v));
    }
  }

  lemma ReadNest(nest: seq<nat>, u: Unit)
    requires NestOf(nest, u.isr)
    ensures NestOf(TrackRead(nest, u), ReadBase(u).0.isr)
  {
    var l := UnitPending(u, {});
    if u.pollArmed && l >= 0 { PushNest(nest, u.isr, l); }
  }

  lemma AckNest(p: Pair, n: Nests)
    requires Nested(p, n)
    ensures Nested(Next(p, Ack), Track(p, n, Ack))
  {
    var l := PendingLevel(p);
    if l >= 8 {
      PushNest(n.master, p.master.isr, CASCADE);
      PushNest(n.slave, p.slave.isr, l - 8);
    } else if l >= 0 {
      PushNest(n.master, p.master.isr, l);
    }
  }

  lemma PortWriteNest(p: Pair, n: Nests, port: nat, v: Byte)
    requires Nested(p, n)
    ensures Nested(Next(p, Write(port, v)), Track(p, n, Write(port, v)))
  {
    if port == MASTER_BASE {
      WriteNest(n.master, p.master, v);
    } else if port == SLAVE_BASE {
      WriteNest(n.slave, p.slave, v);
    }
  }

  lemma StepNest(p: Pair, n: Nests, op: Op)
    requires Nested(p, n)
    ensures Nested(Next(p, op), Track(p, n, op))
  {
    match op
    case Ack => AckNest(p, n);
    case Read(port) =>
      if port == MASTER_BASE {
        ReadNest(n.master, p.master);
      } else if port == SLAVE_BASE {
        ReadNest(n.slave, p.slave);
      }
    case Write(port, v) => PortWriteNest(p, n, port, v);
    case Input(line, level) =>
  }

  /** In every run, of every operation on every port, each unit's ISR is the
      level set of its history, newest entry highest in priority: the scanning
      hardware and the stack of interrupted services never part. */
  lemma {:induction false} RunNested(p: Pair, n: Nests, ops: seq<Op>)
    requires Nested(p, n)
    ensures Nested(Run(p, ops), TrackRun(p, n, ops))
    decreases ops
  {
    if ops != [] {
      StepNest(p, n, ops[0]);
      RunNested(Next(p, ops[0]), Track(p, n, ops[0]), ops[1..]);
    }
  }

  /** So a non-specific EOI retires the most recently acknowledged level that
      is still in service, and nothing else. */
  lemma EoiRetiresNewest(p: Pair, n: Nests, v: Byte)
    requires Nested(p, n) && IsAnyEoi(v)
    ensures n.master != [] ==>
              Next(p, Write(MASTER_BASE, v)).master.isr == p.master.isr - {n.master[|n.master| - 1]}
    ensures n.slave != [] ==>
              Next(p, Write(SLAVE_BASE, v)).slave.isr == p.slave.isr - {n.slave[|n.slave| - 1]}
    ensures n.master == [] ==> Next(p, Write(MASTER_BASE, v)).master == p.master
    ensures n.slave == [] ==> Next(p, Write(SLAVE_BASE, v)).slave == p.slave
  {
    PopNest(n.master, p.master.isr);
    PopNest(n.slave, p.slave.isr);
    EmptyNest(n.master, p.master.isr);
    EmptyNest(n.slave, p.slave.isr);
  }

  lemma EmptyNest(nest: seq<nat>, isr: Byte)
    requires NestOf(nest, isr)
    ensures nest == [] ==> Retire(isr, 0) == isr
  {
    if nest == [] {
      assert isr == {};
      RetireNone(0);
    }
  }

  /** From reset, every run is nested. */
  lemma NestedFromReset(ops: seq<Op>)
    ensures Nested(Run(RESET_PAIR, ops), TrackRun(RESET_PAIR, Nests([], []), ops))
  {
    RunNested(RESET_PAIR, Nests([], []), ops);
  }

  // ---- Acknowledge and the output ----

  /** A request that outranks master level l and may assert. */
  ghost predicate Outranks(p: Pair, l: Level) {
    exists m: Level | m < l :: m in p.master.irr + Cascade(p) - p.master.imr
  }

  /** While a master level is in service, only a request above it can raise the
      output. */
  lemma InServiceHolds(p: Pair, l: Level)
    requires l in p.master.isr && OutputAsserted(p)
    ensures Outranks(p, l)
  {
    var m := UnitPending(p.master, Cascade(p));
    assert m < l && m in p.master.irr + Cascade(p) - p.master.imr;
  }

  /** The master level an acknowledge puts in service. */
  function AckedLevel(p: Pair): Level
    requires OutputAsserted(p)
  {
    if PendingLevel(p) < 8 then PendingLevel(p) else CASCADE
  }

  /** After an acknowledge the output is low. */
  lemma AckDrops(p: Pair)
    requires OutputAsserted(p)
    ensures !OutputAsserted(Next(p, Ack))
    ensures AckedLevel(p) in Next(p, Ack).master.isr
  {
    var l, q := AckedLevel(p), Next(p, Ack);
    assert Serves(p.master.irr + Cascade(p) - p.master.imr, p.master.isr, l);
    assert forall m: Level | m < l :: m !in q.master.irr + Cascade(q) - q.master.imr;
    if OutputAsserted(q) {
      InServiceHolds(q, l);
      assert false;
    }
  }

  /** The operations that can take a master level out of service. */
  predicate Releases(op: Op) {
    op.Write? && op.port == MASTER_BASE && (IsIcw1(op.v) || IsAnyEoi(op.v) || IsSpecificEoi(op.v))
  }

  lemma {:induction false} StaysInService(p: Pair, ops: seq<Op>, l: Level)
    requires l in p.master.isr && forall op | op in ops :: !Releases(op)
    ensures l in Run(p, ops).master.isr
    decreases ops
  {
    if ops != [] {
      assert !Releases(ops[0]);
      StaysInService(Next(p, ops[0]), ops[1..], l);
    }
  }

  /** And it stays low: after an acknowledge and any run in which the master is
      sent no EOI and no ICW1, the output is high only if an unmasked request
      above the acknowledged master level is there.  For a cascaded line that
      level is IR2, so slave traffic of any kind, EOIs included, cannot raise
      the output. */
  lemma StaysDown(p: Pair, ops: seq<Op>)
    requires OutputAsserted(p) && forall op | op in ops :: !Releases(op)
    ensures OutputAsserted(Run(Next(p, Ack), ops)) ==> Outranks(Run(Next(p, Ack), ops), AckedLevel(p))
  {
    AckDrops(p);
    StaysInService(Next(p, Ack), ops, AckedLevel(p));
    if OutputAsserted(Run(Next(p, Ack), ops)) {
      InServiceHolds(Run(Next(p, Ack), ops), AckedLevel(p));
    }
  }

  // ---- Edges are not lost ----

  /** The operation serves line l, or reinitializes its unit. */
  predicate Consumes(p: Pair, op: Op, l: IrqLine) {
    match op
    case Ack => PendingLevel(p) == l
    case Read(port) =>
      if l < 8 then port == MASTER_BASE && p.master.pollArmed && UnitPending(p.master, {}) == l
      else port == SLAVE_BASE && p.slave.pollArmed && UnitPending(p.slave, {}) == l - 8
    case Write(port, v) => IsIcw1(v) && port == if l < 8 then MASTER_BASE else SLAVE_BASE
    case Input(_, _) => false
  }

  ghost predicate NeverConsumed(p: Pair, ops: seq<Op>, l: IrqLine)
    decreases ops
  {
    ops == [] || (!Consumes(p, ops[0], l) && NeverConsumed(Next(p, ops[0]), ops[1..], l))
  }

  /** One step drops a captured request exactly by consuming it, on every line
      but 2. */
  lemma StepKeepsEdge(p: Pair, op: Op, l: IrqLine)
    requires Requested(p, l) && l != CASCADE
    ensures Requested(Next(p, op), l) <==> !Consumes(p, op, l)
  {
  }

  lemma {:induction false} RunKeepsEdge(p: Pair, ops: seq<Op>, l: IrqLine)
    requires Requested(p, l) && l != CASCADE && NeverConsumed(p, ops, l)
    ensures Requested(Run(p, ops), l)
    decreases ops
  {
    if ops != [] {
      StepKeepsEdge(p, ops[0], l);
      RunKeepsEdge(Next(p, ops[0]), ops[1..], l);
    }
  }

  function VectorOf(p: Pair, l: IrqLine): Byte {
    if l < 8 then p.master.icw2 + LevelBits(l) else p.slave.icw2 + LevelBits(l - 8)
  }

  /** A rising edge is never lost.  Capture it, masked or not, and run anything
      that neither serves the line nor reinitializes its unit - masks, EOIs,
      falling edges, other lines: as soon as the line is open and no deliverable
      line comes before it, acknowledge returns its vector. */
  lemma EdgeDelivered(p: Pair, l: IrqLine, ops: seq<Op>)
    requires !p.lastInput[l] && l != CASCADE
    requires NeverConsumed(Next(p, Input(l, true)), ops, l)
    requires var q := Run(Next(p, Input(l, true)), ops);
             Open(q, l) && forall k: IrqLine | Deliverable(q, k) :: Rank(l) <= Rank(k)
    ensures var q := Run(Next(p, Input(l, true)), ops);
            Acknowledge(q).1 == Vector(VectorOf(q, l))
  {
    var q := Run(Next(p, Input(l, true)), ops);
    RunKeepsEdge(Next(p, Input(l, true)), ops, l);
    assert Best(q, l);
    PendingIsBest(q);
  }

  /** Line 2 is the exception: acknowledging a slave line drops a request that
      was captured on master line 2 itself. */
  lemma Line2Dropped(p: Pair)
    requires CASCADE in p.master.irr && PendingLevel(p) >= 8
    ensures CASCADE !in Next(p, Ack).master.irr && Acknowledge(p).1 != NoVector
  {
  }

  /** ICW1 to ICW4 for the unit at a base port. */
  function InitWrites(base: nat): seq<Op> {
    [Write(base, {4, 0}), Write(base + 1, {}), Write(base + 1, {}), Write(base + 1, {})]
  }

  const READY_UNIT := Unit({}, {}, {}, {}, {}, {}, Ready, false, false, false)

  lemma InitReady(p: Pair)
    requires p.master == RESET_UNIT && p.slave == RESET_UNIT
    ensures Run(p, InitWrites(MASTER_BASE)) == p.(master := READY_UNIT)
    ensures Run(p.(master := READY_UNIT), InitWrites(SLAVE_BASE)) == p.(master := READY_UNIT, slave := READY_UNIT)
  {
    InitUnit(p, MASTER_BASE);
    InitUnit(p.(master := READY_UNIT), SLAVE_BASE);
  }

  lemma InitUnit(p: Pair, base: nat)
    requires base == MASTER_BASE || base == SLAVE_BASE
    requires (if base == MASTER_BASE then p.master else p.slave) == RESET_UNIT
    ensures Run(p, InitWrites(base)) ==
            if base == MASTER_BASE then p.(master := READY_UNIT) else p.(slave := READY_UNIT)
  {
    var ops := InitWrites(base);
    var u1 := RESET_UNIT.(init := ExpectIcw2, imr := {});
    var u2 := u1.(init := ExpectIcw3);
    var u3 := u2.(init := ExpectIcw4);
    assert WriteBase(RESET_UNIT, {4, 0}) == u1;
    assert WriteData(u1, {}) == u2 && WriteData(u2, {}) == u3 && WriteData(u3, {}) == READY_UNIT;
    assert ops[1..] == [ops[1], ops[2], ops[3]] && ops[1..][1..] == [ops[2], ops[3]];
    assert [ops[2], ops[3]][1..] == [ops[3]] && [ops[3]][1..] == [];
  }

  /** The premise is reachable: initialize both units, then raise line 2 and line
      8, in any state whose units are as reset and whose two lines are low. */
  lemma Line2DropReachable(p: Pair)
    requires p.master == RESET_UNIT && p.slave == RESET_UNIT && !p.lastInput[2] && !p.lastInput[8]
    ensures var q := Run(Run(p, InitWrites(MASTER_BASE)), InitWrites(SLAVE_BASE));
            var r := Next(Next(q, Input(2, true)), Input(8, true));
            CASCADE in r.master.irr && PendingLevel(r) == 8
  {
    InitReady(p);
    var q := p.(master := READY_UNIT, slave := READY_UNIT);
    var r := Next(Next(q, Input(2, true)), Input(8, true));
    assert r.master.irr == {2} && r.slave.irr == {0};
    assert Deliverable(r, 8);
    assert Best(r, 8);
    PendingIsBest(r);
  }

  /** On line 2 a step drops a captured request exactly by consuming it or by
      acknowledging a slave line. */
  lemma StepKeepsLine2(p: Pair, op: Op)
    requires CASCADE in p.master.irr
    ensures CASCADE in Next(p, op).master.irr <==>
            !Consumes(p, op, CASCADE) && !(op.Ack? && PendingLevel(p) >= 8)
  {
    match op {
      case Input(_, _) =>
      case Ack => AckKeepsLine2(p);
      case Read(_) =>
      case Write(_, _) =>
    }
  }

  lemma AckKeepsLine2(p: Pair)
    requires CASCADE in p.master.irr
    ensures CASCADE in Next(p, Ack).master.irr <==> PendingLevel(p) != CASCADE && PendingLevel(p) < 8
  {
  }

  /** The low three bits of a vector are the level that was served, because
      ICW2 keeps its own low three bits clear. */
  ghost predicate BasesAligned(p: Pair) {
    p.master.icw2 !! {0, 1, 2} && p.slave.icw2 !! {0, 1, 2}
  }

  lemma LevelRoundTrip(base: Byte, l: Level)
    requires base !! {0, 1, 2}
    ensures LevelOf(base + LevelBits(l)) == l
  {
  }

  lemma {:induction false} RunBases(p: Pair, ops: seq<Op>)
    requires BasesAligned(p)
    ensures BasesAligned(Run(p, ops))
    decreases ops
  {
    if ops != [] { RunBases(Next(p, ops[0]), ops[1..]); }
  }

  /** A specific EOI built from the vector's low bits ends level l. */
  lemma EoiFromVector(u: Unit, base: Byte, l: Level)
    requires base !! {0, 1, 2} && l !in u.isr
    ensures var eoi: Byte := (base + LevelBits(l)) * {0, 1, 2} + {5, 6};
            WriteBase(Transfer(u, l), eoi).isr == u.isr
  {
    var eoi: Byte := (base + LevelBits(l)) * {0, 1, 2} + {5, 6};
    assert eoi == {5, 6} + LevelBits(l);
    LevelRoundTrip({5, 6}, l);
    assert u.isr + {l} - {l} == u.isr;
  }

  /** So the vector an interrupt handler reads names the level whose service it
      must end: after any run, the specific EOI built from the vector and sent
      to the unit that supplied it retires exactly the acknowledged level. */
  lemma VectorEndsService(p: Pair)
    requires BasesAligned(p) && OutputAsserted(p)
    ensures Acknowledge(p).1.Vector?
    ensures var q := Acknowledge(p).0;
            var eoi: Byte := Acknowledge(p).1.byte * {0, 1, 2} + {5, 6};
            if PendingLevel(p) < 8 then Next(q, Write(MASTER_BASE, eoi)).master.isr == p.master.isr
            else Next(q, Write(SLAVE_BASE, eoi)).slave.isr == p.slave.isr
  {
    var g := PendingLevel(p);
    if g < 8 {
      EoiFromVector(p.master, p.master.icw2, g);
    } else {
      EoiFromVector(p.slave, p.slave.icw2, g - 8);
    }
  }
}

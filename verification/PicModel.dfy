/** The CY82C693's 8259A pair as transitions on values
    (chipsetLib/Pic8259Pair.h).  An eight-bit register is the set of its one
    bits; level 0 has the highest priority. */
module PicModel {
  import opened Words

  datatype InitState = PowerOn | ExpectIcw2 | ExpectIcw3 | ExpectIcw4 | Ready

  datatype Unit = Unit(
    irr: Byte, isr: Byte, imr: Byte,
    icw2: Byte, icw3: Byte, icw4: Byte,
    init: InitState, readIsr: bool, pollArmed: bool, ltim: bool)

  type Inputs = s: seq<bool> | |s| == 16
    witness seq(16, i => false)

  datatype Pair = Pair(master: Unit, slave: Unit, lastInput: Inputs, elcr0: Byte, elcr1: Byte)

  const CASCADE: nat := 2
  const ALL: Byte := {0, 1, 2, 3, 4, 5, 6, 7}
  const MASTER_BASE: nat := 0x20
  const SLAVE_BASE: nat := 0xA0
  const ELCR_BASE: nat := 0x4D0

  const RESET_UNIT := Unit({}, {}, ALL, {}, {}, {}, PowerOn, false, false, false)
  const RESET_PAIR := Pair(RESET_UNIT, RESET_UNIT, seq(16, i => false), {}, {})

  // ---- Level numbers inside a byte ----

  type Level = l: nat | l < 8

  /** The level number l as the low three bits of a byte. */
  function LevelBits(l: Level): Byte {
    (if l % 2 == 1 then {0} else {}) + (if l / 2 % 2 == 1 then {1} else {}) + (if l / 4 == 1 then {2} else {})
  }

  /** `v & 7`. */
  function LevelOf(v: Byte): Level {
    (if 0 in v then 1 else 0) + (if 1 in v then 2 else 0) + (if 2 in v then 4 else 0)
  }

  // ---- Priority resolution ----

  /** Level l is requested, and no level of equal or higher priority is in
      service or requested before it. */
  ghost predicate Serves(req: Byte, isr: Byte, l: Level) {
    l in req && l !in isr && forall m: Level | m < l :: m !in req && m !in isr
  }

  /** The scan of unitPending from level l down in priority. */
  function Scan(req: Byte, isr: Byte, l: nat): (r: int)
    requires l <= 8
    requires forall m: Level | m < l :: m !in req && m !in isr
    ensures -1 <= r < 8
    ensures r >= 0 ==> Serves(req, isr, r)
    ensures r < 0 ==> forall k: Level :: !Serves(req, isr, k)
    decreases 8 - l
  {
    if l == 8 || l in isr then -1
    else if l in req then l
    else Scan(req, isr, l + 1)
  }

  function UnitPending(u: Unit, extra: Byte): (r: int)
    ensures -1 <= r < 8
    ensures r >= 0 ==> u.init.Ready? && Serves(u.irr + extra - u.imr, u.isr, r)
    ensures r < 0 && u.init.Ready? ==> forall k: Level :: !Serves(u.irr + extra - u.imr, u.isr, k)
  {
    if u.init.Ready? then Scan(u.irr + extra - u.imr, u.isr, 0) else -1
  }

  /** The slave's request line into master IR2. */
  function Cascade(p: Pair): Byte {
    if UnitPending(p.slave, {}) >= 0 then {CASCADE} else {}
  }

  /** The winning global level 0-15, or -1 when the output is low. */
  function PendingLevel(p: Pair): (r: int)
    ensures -1 <= r < 16
  {
    var slave := UnitPending(p.slave, {});
    var master := UnitPending(p.master, Cascade(p));
    if master == CASCADE && slave >= 0 then 8 + slave else master
  }

  predicate OutputAsserted(p: Pair) { PendingLevel(p) >= 0 }

  // ---- Operations ----

  function SetInput(p: Pair, line: nat, level: bool): Pair {
    var idx := line % 16;
    var q := p.(lastInput := p.lastInput[idx := level]);
    if !level || p.lastInput[idx] then q
    else if idx < 8 then q.(master := q.master.(irr := q.master.irr + {idx}))
    else q.(slave := q.slave.(irr := q.slave.irr + {idx - 8}))
  }

  function Transfer(u: Unit, l: Level): Unit {
    u.(irr := u.irr - {l}, isr := u.isr + {l})
  }

  datatype Vector = NoVector | Vector(byte: Byte)

  function Acknowledge(p: Pair): (Pair, Vector) {
    var l := PendingLevel(p);
    if l < 0 then (p, NoVector)
    else if l < 8 then (p.(master := Transfer(p.master, l)), Vector(p.master.icw2 + LevelBits(l)))
    else
      (p.(master := Transfer(p.master, CASCADE), slave := Transfer(p.slave, l - 8)),
       Vector(p.slave.icw2 + LevelBits(l - 8)))
  }

  function ReadBase(u: Unit): (Unit, Byte) {
    if !u.pollArmed then (u, if u.readIsr then u.isr else u.irr)
    else
      var v := u.(pollArmed := false);
      var l := UnitPending(u, {});
      if l < 0 then (v, {}) else (Transfer(v, l), {7} + LevelBits(l))
  }

  predicate IsIcw1(v: Byte) { 4 in v }
  predicate IsOcw3(v: Byte) { 4 !in v && 3 in v }
  /** OCW2 with operation 001. */
  predicate IsAnyEoi(v: Byte) { 4 !in v && 3 !in v && 5 in v && 6 !in v && 7 !in v }
  /** OCW2 with operation 011. */
  predicate IsSpecificEoi(v: Byte) { 4 !in v && 3 !in v && 5 in v && 6 in v && 7 !in v }

  /** The in-service register after a non-specific EOI, scanning from level l. */
  function Retire(isr: Byte, l: nat): (r: Byte)
    requires l <= 8
    ensures r <= isr
    decreases 8 - l
  {
    if l == 8 then isr else if l in isr then isr - {l} else Retire(isr, l + 1)
  }

  function WriteBase(u: Unit, v: Byte): Unit {
    if IsIcw1(v) then
      u.(init := ExpectIcw2, ltim := 3 in v, imr := {}, irr := {}, isr := {},
         readIsr := false, pollArmed := false, icw4 := if 0 in v then u.icw4 else {})
    else if IsOcw3(v) then
      u.(readIsr := if 1 in v then 0 in v else u.readIsr, pollArmed := u.pollArmed || 2 in v)
    else if IsAnyEoi(v) then u.(isr := Retire(u.isr, 0))
    else if IsSpecificEoi(v) then u.(isr := u.isr - {LevelOf(v)})
    else u
  }

  function WriteData(u: Unit, v: Byte): Unit {
    match u.init
    case ExpectIcw2 => u.(icw2 := v - {0, 1, 2}, init := ExpectIcw3)
    case ExpectIcw3 => u.(icw3 := v, init := ExpectIcw4)
    case ExpectIcw4 => u.(icw4 := v, init := Ready)
    case _ => u.(imr := v)
  }

  function ReadPort(p: Pair, port: nat): (Pair, Byte) {
    if port == MASTER_BASE then
      var (u, b) := ReadBase(p.master);
      (p.(master := u), b)
    else if port == MASTER_BASE + 1 then (p, p.master.imr)
    else if port == SLAVE_BASE then
      var (u, b) := ReadBase(p.slave);
      (p.(slave := u), b)
    else if port == SLAVE_BASE + 1 then (p, p.slave.imr)
    else if port == ELCR_BASE then (p, p.elcr0)
    else if port == ELCR_BASE + 1 then (p, p.elcr1)
    else (p, ALL)
  }

  function WritePort(p: Pair, port: nat, v: Byte): Pair {
    if port == MASTER_BASE then p.(master := WriteBase(p.master, v))
    else if port == MASTER_BASE + 1 then p.(master := WriteData(p.master, v))
    else if port == SLAVE_BASE then p.(slave := WriteBase(p.slave, v))
    else if port == SLAVE_BASE + 1 then p.(slave := WriteData(p.slave, v))
    else if port == ELCR_BASE then p.(elcr0 := v)
    else if port == ELCR_BASE + 1 then p.(elcr1 := v)
    else p
  }

  /** Everything that can happen to the pair. */
  datatype Op = Input(line: nat, level: bool) | Ack | Read(port: nat) | Write(port: nat, v: Byte)

  function Next(p: Pair, op: Op): Pair {
    match op
    case Input(line, level) => SetInput(p, line, level)
    case Ack => Acknowledge(p).0
    case Read(port) => ReadPort(p, port).0
    case Write(port, v) => WritePort(p, port, v)
  }

  function Run(p: Pair, ops: seq<Op>): Pair
    decreases ops
  {
    if ops == [] then p else Run(Next(p, ops[0]), ops[1..])
  }
}

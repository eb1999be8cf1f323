/** The 8259A pair as the object the code updates in place
    (chipsetLib/Pic8259Pair.h). */
module Pic {
  import opened Words
  import opened PicModel

  class Pic8259Pair {
    var master: Unit
    var slave: Unit
    var lastInput: Inputs
    var elcr0: Byte
    var elcr1: Byte

    ghost function State(): Pair
      reads this
    {
      Pair(master, slave, lastInput, elcr0, elcr1)
    }

    constructor ()
      ensures State() == RESET_PAIR
    {
      master := RESET_UNIT;
      slave := RESET_UNIT;
      lastInput := seq(16, i => false);
      elcr0 := {};
      elcr1 := {};
    }

    /** Edge capture: the rising edge latches IRR whatever the mask says. */
    method SetIrqInput(line: nat, level: bool)
      modifies this
      ensures State() == SetInput(old(State()), line, level)
    {
      var idx := line % 16;
      var prev := lastInput[idx];
      lastInput := lastInput[idx := level];
      if level && !prev {
        if idx < 8 {
          master := master.(irr := master.irr + {idx});
        } else {
          slave := slave.(irr := slave.irr + {idx - 8});
        }
      }
    }

    /** unitPending: the priority scan, highest first. */
    static method ScanUnit(u: Unit, extra: Byte) returns (lvl: int)
      ensures lvl == UnitPending(u, extra)
    {
      if !u.init.Ready? { return -1; }
      var req: Byte := u.irr + extra - u.imr;
      var l := 0;
      while l < 8
        invariant 0 <= l <= 8
        invariant forall m: Level | m < l :: m !in req && m !in u.isr
        invariant Scan(req, u.isr, 0) == Scan(req, u.isr, l)
      {
        if l in u.isr { return -1; }
        if l in req { return l; }
        l := l + 1;
      }
      return -1;
    }

    /** pendingLevel: slave first, its result presented on master IR2. */
    method Resolve() returns (lvl: int)
      ensures lvl == PendingLevel(State())
    {
      var slaveLvl := ScanUnit(slave, {});
      var cascadeBit: Byte := if slaveLvl >= 0 then {CASCADE} else {};
      var masterLvl := ScanUnit(master, cascadeBit);
      if masterLvl < 0 { return -1; }
      if masterLvl == CASCADE && slaveLvl >= 0 { return 8 + slaveLvl; }
      return masterLvl;
    }

    /** The INTA cycle. */
    method Acknowledge() returns (vec: Vector)
      modifies this
      ensures (State(), vec) == PicModel.Acknowledge(old(State()))
    {
      var lvl := Resolve();
      if lvl < 0 { return NoVector; }
      if lvl < 8 {
        vec := Vector(master.icw2 + LevelBits(lvl));
        master := Transfer(master, lvl);
      } else {
        vec := Vector(slave.icw2 + LevelBits(lvl - 8));
        master := Transfer(master, CASCADE);
        slave := Transfer(slave, lvl - 8);
      }
    }

    /** A base-port read; an armed poll is a software acknowledge. */
    static method PollOrRead(u: Unit) returns (r: Unit, b: Byte)
      ensures (r, b) == ReadBase(u)
    {
      r := u;
      if u.pollArmed {
        r := r.(pollArmed := false);
        var lvl := ScanUnit(u, {});
        if lvl < 0 { return r, {}; }
        return Transfer(r, lvl), {7} + LevelBits(lvl);
      }
      b := if u.readIsr then u.isr else u.irr;
    }

    method IoRead(port: nat) returns (b: Byte)
      modifies this
      ensures (State(), b) == ReadPort(old(State()), port)
    {
      if port == MASTER_BASE {
        master, b := PollOrRead(master);
      } else if port == MASTER_BASE + 1 {
        b := master.imr;
      } else if port == SLAVE_BASE {
        slave, b := PollOrRead(slave);
      } else if port == SLAVE_BASE + 1 {
        b := slave.imr;
      } else if port == ELCR_BASE {
        b := elcr0;
      } else if port == ELCR_BASE + 1 {
        b := elcr1;
      } else {
        b := ALL;
      }
    }

    /** The non-specific EOI: clear the first in-service bit that the scan
        meets. */
    static method RetireFirst(isr: Byte) returns (r: Byte)
      ensures r == Retire(isr, 0)
    {
      r := isr;
      var l := 0;
      while l < 8
        invariant 0 <= l <= 8 && r == isr
        invariant Retire(isr, 0) == Retire(isr, l)
      {
        if l in isr {
          return isr - {l};
        }
        l := l + 1;
      }
    }

    /** A base-port write: ICW1, OCW3 or OCW2. */
    static method Command(u: Unit, v: Byte) returns (r: Unit)
      ensures r == WriteBase(u, v)
    {
      r := u;
      if 4 in v {
        r := r.(init := ExpectIcw2, ltim := 3 in v);
        r := r.(imr := {}, irr := {}, isr := {});
        r := r.(readIsr := false, pollArmed := false);
        if 0 !in v { r := r.(icw4 := {}); }
      } else if 3 in v {
        if 1 in v && 0 !in v { r := r.(readIsr := false); }
        if 1 in v && 0 in v { r := r.(readIsr := true); }
        if 2 in v { r := r.(pollArmed := true); }
      } else if 5 in v && 6 !in v && 7 !in v {
        var isr := RetireFirst(u.isr);
        r := r.(isr := isr);
      } else if 5 in v && 6 in v && 7 !in v {
        r := r.(isr := r.isr - {LevelOf(v)});
      }
    }

    method IoWrite(port: nat, v: Byte)
      modifies this
      ensures State() == WritePort(old(State()), port, v)
    {
      if port == MASTER_BASE {
        master := Command(master, v);
      } else if port == MASTER_BASE + 1 {
        master := WriteData(master, v);
      } else if port == SLAVE_BASE {
        slave := Command(slave, v);
      } else if port == SLAVE_BASE + 1 {
        slave := WriteData(slave, v);
      } else if port == ELCR_BASE {
        elcr0 := v;
      } else if port == ELCR_BASE + 1 {
        elcr1 := v;
      }
    }
  }
}

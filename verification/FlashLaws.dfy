/** What flash reads return after programs, erases and the autoselect command
    (chipsetLib/FlashRom.cpp:67-172). */
module FlashLaws {
  import opened Arithmetic
  import opened FlashModel

  /** What a read of cell x returns at the end of the trace. */
  function ReadAfter(f: Flash, trace: seq<Access>, x: nat): Cell {
    ReadValue(Run(f, trace), x)
  }

  /** The two offsets name the same cell, or cells of the same sector. */
  predicate SameCell(x: nat, y: nat) { x % 0x20_0000 == y % 0x20_0000 }
  predicate SameSector(x: nat, y: nat) { x % 0x20_0000 / 0x1_0000 == y % 0x20_0000 / 0x1_0000 }

  /** After a program of d at off, with reads anywhere among its writes, a read
      there returns d, and a read of any other cell returns what it returned
      before. */
  lemma ReadAfterProgram(f: Flash, trace: seq<Access>, off: nat, d: Cell, x: nat)
    requires f.mode.ReadArray? && Writes(trace) == Sequence(ProgramByte(off, d))
    ensures ReadAfter(f, trace, x) == if SameCell(x, off) then d else ReadValue(f, x)
  {
    ProgramWorks(f, trace, off, d);
  }

  /** Once its status reads are over, a sector erase leaves reads of that sector
      returning the erased value and all others what they returned before; a chip
      erase leaves all reads returning the erased value. */
  lemma ReadAfterErase(f: Flash, arm: seq<Access>, c: Command, polls: seq<Access>, x: nat)
    requires f.mode.ReadArray? && !c.ProgramByte?
    requires Writes(arm) == ARM && Writes(polls) == [] && |polls| >= 2
    ensures ReadAfter(f, arm + [Trigger(c)] + polls, x) ==
            if c.EraseAll? || SameSector(x, c.off) then 0xFF else ReadValue(f, x)
  {
    EraseWorks(f, arm, c, polls);
    if c.EraseOne? { SectorOf(x % SIZE, c.off % SIZE); }
  }

  lemma SectorOf(x: nat, y: nat)
    ensures y / SECTOR * SECTOR <= x < y / SECTOR * SECTOR + SECTOR <==> x / SECTOR == y / SECTOR
  {
  }

  /** The first two reads after an erase, of any cells, return the status 0x80;
      the third returns the array. */
  lemma ReadsDuringErase(f: Flash, arm: seq<Access>, c: Command, a: nat, b: nat, x: nat)
    requires f.mode.ReadArray? && !c.ProgramByte? && Writes(arm) == ARM
    ensures var started := arm + [Trigger(c)];
            && ReadAfter(f, started, a) == 0x80
            && ReadAfter(f, started + [R(a)], b) == 0x80
            && ReadAfter(f, started + [R(a), R(b)], x) ==
               if c.EraseAll? || SameSector(x, c.off) then 0xFF else ReadValue(f, x)
  {
    var t := Trigger(c);
    RunConcat(f, arm, [t]);
    Arms(f, arm);
    RunOne(f.(mode := Erase5), t);
    TriggerErases(f.(mode := Erase5), c);
    RunConcat(f, arm + [t], [R(a)]);
    RunOne(Run(f, arm + [t]), R(a));
    assert [R(a), R(b)][1..] == [R(b)] && [R(b)][1..] == [];
    assert Writes([R(b)]) == [];
    assert Writes([R(a), R(b)]) == [];
    ReadAfterErase(f, arm, c, [R(a), R(b)], x);
  }

  /** After the autoselect command, with reads anywhere among its writes, offsets
      0 and 1 return the manufacturer and the device, every other offset 0, and
      reading ends nothing. */
  lemma ReadAfterAutoselect(f: Flash, trace: seq<Access>, x: nat)
    requires Ready(f.mode) && Writes(trace) == UNLOCK + [W(UNLOCK1, 0x90)]
    ensures ReadAfter(f, trace, x) == if x == 0 then 0x01 else if x == 1 then 0xAD else 0
    ensures Run(f, trace).data == f.data && Ready(Run(f, trace).mode)
  {
    var rest := Unlocks(f, trace, [W(UNLOCK1, 0x90)]);
    var last := NextWrite(f.(mode := Step2), rest);
    ReadsSteady(f.(mode := Autosel), last);
  }

  /** A reset write returns autoselect to the array. */
  lemma AutoselectEnds(f: Flash, d: Cell, x: nat)
    requires f.mode.Autosel? && d != 0xAA
    ensures ReadAfter(f, [W(x, d)], x) == f.data[x % SIZE]
  {
    RunOne(f, W(x, d));
  }
}

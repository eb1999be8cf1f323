/** The AMD Am29F016 flash on the TIG bus: its command machine as transitions on
    values (chipsetLib/FlashRom.cpp:50-172). */
module FlashModel {
  import opened Arithmetic

  const SIZE: nat := 0x20_0000
  const SECTOR: nat := 0x1_0000
  const ERASED: Cell := 0xFF
  const UNLOCK1: nat := 0x5555
  const UNLOCK2: nat := 0x2AAA
  const QUIET: nat := 8_000_000

  type Image = s: seq<Cell> | |s| == SIZE
    witness seq(SIZE, i => ERASED)

  function Blank(): Image { seq(SIZE, i => ERASED) }

  datatype Mode = ReadArray | Step1 | Step2 | Autosel | Program | Erase3 | Erase4 | Erase5 | Confirm0 | Confirm1

  datatype Flash = Flash(data: Image, mode: Mode, dirty: bool, pending: bool, lastMutate: nat)

  // ---- Bus accesses ----

  datatype Access = R(off: nat) | W(off: nat, d: Cell)

  function ReadMode(m: Mode): Mode {
    match m
    case Confirm1 => Confirm0
    case Confirm0 => ReadArray
    case _ => m
  }

  function ReadValue(f: Flash, off: nat): Cell {
    match f.mode
    case Autosel => if off == 0 then 0x01 else if off == 1 then 0xAD else 0
    case Confirm1 => 0x80
    case Confirm0 => 0x80
    case _ => f.data[off % SIZE]
  }

  /** The sector that holds `off`, erased. */
  function EraseSector(data: Image, off: nat): Image {
    var lo := off % SIZE / SECTOR * SECTOR;
    seq(SIZE, i requires 0 <= i < SIZE => if lo <= i < lo + SECTOR then ERASED else data[i])
  }

  function Mutate(f: Flash, data: Image, mode: Mode): Flash {
    f.(data := data, mode := mode, dirty := true, pending := true)
  }

  function WriteAccess(f: Flash, off: nat, d: Cell): Flash {
    match f.mode
    case ReadArray => f.(mode := if off == UNLOCK1 && d == 0xAA then Step1 else ReadArray)
    case Autosel => f.(mode := if off == UNLOCK1 && d == 0xAA then Step1 else ReadArray)
    case Step1 => f.(mode := if off == UNLOCK2 && d == 0x55 then Step2 else ReadArray)
    case Step2 =>
      f.(mode := if off != UNLOCK1 then ReadArray
                 else if d == 0x90 then Autosel
                 else if d == 0xA0 then Program
                 else if d == 0x80 then Erase3
                 else ReadArray)
    case Erase3 => f.(mode := if off == UNLOCK1 && d == 0xAA then Erase4 else ReadArray)
    case Erase4 => f.(mode := if off == UNLOCK2 && d == 0x55 then Erase5 else ReadArray)
    case Erase5 =>
      if off == UNLOCK1 && d == 0x10 then Mutate(f, Blank(), Confirm1)
      else if d == 0x30 then Mutate(f, EraseSector(f.data, off), Confirm1)
      else f.(mode := ReadArray)
    case Program => Mutate(f, f.data[off % SIZE := d], ReadArray)
    case _ => f.(mode := ReadArray)
  }

  function Do(f: Flash, a: Access): Flash {
    match a
    case R(_) => f.(mode := ReadMode(f.mode))
    case W(off, d) => WriteAccess(f, off, d)
  }

  function Run(f: Flash, trace: seq<Access>): Flash
    decreases trace
  {
    if trace == [] then f else Run(Do(f, trace[0]), trace[1..])
  }

  function Writes(trace: seq<Access>): seq<Access> {
    if trace == [] then []
    else (if trace[0].W? then [trace[0]] else []) + Writes(trace[1..])
  }

  lemma {:induction false} RunConcat(f: Flash, a: seq<Access>, b: seq<Access>)
    ensures Run(f, a + b) == Run(Run(f, a), b)
    decreases a
  {
    if a == [] {
      assert a + b == b;
    } else {
      assert (a + b)[0] == a[0] && (a + b)[1..] == a[1..] + b;
      RunConcat(Do(f, a[0]), a[1..], b);
    }
  }

  lemma {:induction false} WritesConcat(a: seq<Access>, b: seq<Access>)
    ensures Writes(a + b) == Writes(a) + Writes(b)
    decreases a
  {
    if a == [] {
      assert a + b == b;
    } else {
      assert (a + b)[0] == a[0] && (a + b)[1..] == a[1..] + b;
      WritesConcat(a[1..], b);
    }
  }

  // ---- Commands ----

  /** A completed command of Table 5 of the Am29F016B datasheet. */
  datatype Command = ProgramByte(off: nat, d: Cell) | EraseOne(off: nat) | EraseAll

  function Effect(data: Image, c: Command): Image {
    match c
    case ProgramByte(off, d) => data[off % SIZE := d]
    case EraseOne(off) => EraseSector(data, off)
    case EraseAll => Blank()
  }

  const UNLOCK: seq<Access> := [W(UNLOCK1, 0xAA), W(UNLOCK2, 0x55)]

  /** The writes that make up the command. */
  function Sequence(c: Command): seq<Access> {
    match c
    case ProgramByte(off, d) => UNLOCK + [W(UNLOCK1, 0xA0), W(off, d)]
    case EraseOne(off) => UNLOCK + [W(UNLOCK1, 0x80)] + UNLOCK + [W(off, 0x30)]
    case EraseAll => UNLOCK + [W(UNLOCK1, 0x80)] + UNLOCK + [W(UNLOCK1, 0x10)]
  }

  // ---- Nothing but a command changes the array ----

  ghost predicate EndsWith(s: seq<Access>, t: seq<Access>) {
    |t| <= |s| && s[|s| - |t|..] == t
  }

  /** The writes that must have come last for the machine to be in the mode. */
  function Prefix(m: Mode): seq<Access> {
    match m
    case Step1 => [W(UNLOCK1, 0xAA)]
    case Step2 => UNLOCK
    case Program => UNLOCK + [W(UNLOCK1, 0xA0)]
    case Erase3 => UNLOCK + [W(UNLOCK1, 0x80)]
    case Erase4 => UNLOCK + [W(UNLOCK1, 0x80)] + [W(UNLOCK1, 0xAA)]
    case Erase5 => UNLOCK + [W(UNLOCK1, 0x80)] + UNLOCK
    case _ => []
  }

  lemma EndsWithSnoc(s: seq<Access>, t: seq<Access>, a: Access)
    requires EndsWith(s, t)
    ensures EndsWith(s + [a], t + [a])
  {
    assert (s + [a])[|s + [a]| - |t + [a]|..] == s[|s| - |t|..] + [a];
  }

  /** A write extends the prefix or forgets it. */
  lemma PrefixGrows(f: Flash, a: Access)
    requires a.W?
    ensures Prefix(Do(f, a).mode) == Prefix(f.mode) + [a] || Prefix(Do(f, a).mode) == []
  {
    assert [W(UNLOCK1, 0xAA)] + [W(UNLOCK2, 0x55)] == UNLOCK;
    assert UNLOCK + [W(UNLOCK1, 0x80)] + [W(UNLOCK1, 0xAA)] + [W(UNLOCK2, 0x55)]
        == UNLOCK + [W(UNLOCK1, 0x80)] + UNLOCK;
  }

  lemma DoRemembers(f: Flash, ws: seq<Access>, a: Access)
    requires EndsWith(ws, Prefix(f.mode))
    ensures EndsWith(ws + Writes([a]), Prefix(Do(f, a).mode))
  {
    assert [a][1..] == [];
    if a.W? {
      assert Writes([a]) == [a];
      PrefixGrows(f, a);
      EndsWithSnoc(ws, Prefix(f.mode), a);
    } else {
      assert ws + Writes([a]) == ws;
    }
  }

  lemma WritesCons(trace: seq<Access>)
    requires trace != []
    ensures Writes(trace) == Writes([trace[0]]) + Writes(trace[1..])
  {
    assert [trace[0]][1..] == [];
  }

  lemma Associate(a: seq<Access>, b: seq<Access>, c: seq<Access>)
    ensures a + b + c == a + (b + c)
  {
  }

  lemma {:induction false} RunRemembers(f: Flash, ws: seq<Access>, trace: seq<Access>)
    requires EndsWith(ws, Prefix(f.mode))
    ensures EndsWith(ws + Writes(trace), Prefix(Run(f, trace).mode))
    decreases trace
  {
    if trace == [] {
      assert ws + Writes(trace) == ws;
    } else {
      DoRemembers(f, ws, trace[0]);
      RunRemembers(Do(f, trace[0]), ws + Writes([trace[0]]), trace[1..]);
      WritesCons(trace);
      Associate(ws, Writes([trace[0]]), Writes(trace[1..]));
    }
  }

  /** A write that moves the array completes the remembered command. */
  lemma MutationIsCommand(g: Flash, ws: seq<Access>, off: nat, d: Cell) returns (c: Command)
    requires EndsWith(ws, Prefix(g.mode))
    requires g.mode.Program? || (g.mode.Erase5? && (d == 0x30 || (off == UNLOCK1 && d == 0x10)))
    ensures EndsWith(ws + [W(off, d)], Sequence(c))
    ensures WriteAccess(g, off, d).data == Effect(g.data, c)
  {
    var a := W(off, d);
    EndsWithSnoc(ws, Prefix(g.mode), a);
    c := if g.mode.Program? then ProgramByte(off, d)
         else if off == UNLOCK1 && d == 0x10 then EraseAll
         else EraseOne(off);
    assert Prefix(g.mode) + [a] == Sequence(c);
  }

  lemma OtherWritesKeep(g: Flash, off: nat, d: Cell)
    requires !(g.mode.Program? || (g.mode.Erase5? && (d == 0x30 || (off == UNLOCK1 && d == 0x10))))
    ensures var h := WriteAccess(g, off, d);
            h.data == g.data && h.dirty == g.dirty && h.pending == g.pending
  {
  }

  /** Whatever has been read and written since power-on, a bus write leaves the
      array and the dirty flag alone, or it is the last write of a command
      whose whole sequence is the most recent run of writes, and the array
      takes that command's effect. */
  lemma OnlyCommandsMutate(f: Flash, trace: seq<Access>, off: nat, d: Cell)
    requires f.mode.ReadArray?
    ensures var g := Run(f, trace);
            var h := WriteAccess(g, off, d);
            || (h.data == g.data && h.dirty == g.dirty && h.pending == g.pending)
            || (exists c :: EndsWith(Writes(trace) + [W(off, d)], Sequence(c)) && h.data == Effect(g.data, c))
  {
    var g := Run(f, trace);
    RunRemembers(f, [], trace);
    assert [] + Writes(trace) == Writes(trace);
    if g.mode.Program? || (g.mode.Erase5? && (d == 0x30 || (off == UNLOCK1 && d == 0x10))) {
      var c := MutationIsCommand(g, Writes(trace), off, d);
    } else {
      OtherWritesKeep(g, off, d);
    }
  }

  // ---- Every command takes effect ----

  /** Ready for a command's first write. */
  predicate Ready(m: Mode) { m.ReadArray? || m.Autosel? }

  /** Reads move the mode only after an erase. */
  predicate Steady(m: Mode) { !m.Confirm0? && !m.Confirm1? }

  lemma {:induction false} ReadsSteady(f: Flash, trace: seq<Access>)
    requires Steady(f.mode) && Writes(trace) == []
    ensures Run(f, trace) == f
    decreases trace
  {
    if trace != [] {
      assert trace[0].R?;
      ReadsSteady(Do(f, trace[0]), trace[1..]);
    }
  }

  /** A trace cut at its first write. */
  lemma {:induction false} FirstWrite(trace: seq<Access>) returns (i: nat)
    requires Writes(trace) != []
    ensures i < |trace| && trace[i] == Writes(trace)[0]
    ensures Writes(trace[..i]) == [] && Writes(trace[i + 1..]) == Writes(trace)[1..]
    decreases trace
  {
    if trace[0].W? {
      i := 0;
    } else {
      var j := FirstWrite(trace[1..]);
      i := j + 1;
      assert trace[..i] == [trace[0]] + trace[1..][..j];
      WritesConcat([trace[0]], trace[1..][..j]);
      assert trace[1..][j + 1..] == trace[i + 1..];
    }
  }

  /** In a steady mode a trace's next write lands as if no read preceded it. */
  lemma NextWrite(f: Flash, trace: seq<Access>) returns (rest: seq<Access>)
    requires Steady(f.mode) && Writes(trace) != []
    ensures Writes(rest) == Writes(trace)[1..]
    ensures Run(f, trace) == Run(Do(f, Writes(trace)[0]), rest)
  {
    var i := FirstWrite(trace);
    rest := trace[i + 1..];
    assert trace == trace[..i] + trace[i..];
    RunConcat(f, trace[..i], trace[i..]);
    ReadsSteady(f, trace[..i]);
    assert trace[i..][1..] == rest;
  }

  /** The unlock pair, with any reads between, leads to Step2. */
  lemma Unlocks(f: Flash, trace: seq<Access>, tail: seq<Access>) returns (rest: seq<Access>)
    requires Ready(f.mode) && Writes(trace) == UNLOCK + tail
    ensures Writes(rest) == tail && Run(f, trace) == Run(f.(mode := Step2), rest)
  {
    var r1 := NextWrite(f, trace);
    rest := NextWrite(f.(mode := Step1), r1);
    assert (UNLOCK + tail)[1..][1..] == tail;
  }

  /** A program command with reads anywhere among its writes programs the byte. */
  lemma ProgramWorks(f: Flash, trace: seq<Access>, off: nat, d: Cell)
    requires Ready(f.mode) && Writes(trace) == Sequence(ProgramByte(off, d))
    ensures Run(f, trace) == Mutate(f, Effect(f.data, ProgramByte(off, d)), ReadArray)
  {
    var r2 := Unlocks(f, trace, [W(UNLOCK1, 0xA0), W(off, d)]);
    var r3 := NextWrite(f.(mode := Step2), r2);
    assert [W(UNLOCK1, 0xA0), W(off, d)][1..] == [W(off, d)];
    var r4 := NextWrite(f.(mode := Program), r3);
    ReadsSteady(Mutate(f, Effect(f.data, ProgramByte(off, d)), ReadArray), r4);
  }

  /** The five writes that arm an erase. */
  const ARM: seq<Access> := UNLOCK + [W(UNLOCK1, 0x80)] + UNLOCK

  /** They arm it with any reads between and after them. */
  lemma Arms(f: Flash, trace: seq<Access>)
    requires Ready(f.mode) && Writes(trace) == ARM
    ensures Run(f, trace) == f.(mode := Erase5)
  {
    var t3: seq<Access> := [W(UNLOCK1, 0x80)] + UNLOCK;
    assert ARM == UNLOCK + t3;
    var r2 := Unlocks(f, trace, t3);
    var r3 := NextWrite(f.(mode := Step2), r2);
    assert t3[1..] == UNLOCK;
    SecondUnlock(f, r3);
  }

  lemma SecondUnlock(f: Flash, trace: seq<Access>)
    requires Writes(trace) == UNLOCK
    ensures Run(f.(mode := Erase3), trace) == f.(mode := Erase5)
  {
    var r1 := NextWrite(f.(mode := Erase3), trace);
    var r2 := NextWrite(f.(mode := Erase4), r1);
    assert UNLOCK[1..][1..] == [];
    ReadsSteady(f.(mode := Erase5), r2);
  }

  /** The write that starts an armed erase. */
  function Trigger(c: Command): Access
    requires !c.ProgramByte?
  {
    if c.EraseAll? then W(UNLOCK1, 0x10) else W(c.off, 0x30)
  }

  /** After an erase, two status reads return the flash to read-array mode. */
  lemma HandshakeEnds(f: Flash, polls: seq<Access>)
    requires Writes(polls) == [] && |polls| >= 2 && f.mode.Confirm1?
    ensures Run(f, polls) == f.(mode := ReadArray)
  {
    var f1 := Do(f, polls[0]);
    assert polls[1..][1..] == polls[2..];
    ReadsSteady(Do(f1, polls[1]), polls[2..]);
  }

  /** The trigger on an armed flash erases. */
  lemma TriggerErases(f: Flash, c: Command)
    requires f.mode.Erase5? && !c.ProgramByte?
    ensures Do(f, Trigger(c)) == Mutate(f, Effect(f.data, c), Confirm1)
  {
  }

  lemma RunOne(f: Flash, a: Access)
    ensures Run(f, [a]) == Do(f, a)
  {
    assert [a][1..] == [];
  }

  lemma EraseWorks(f: Flash, arm: seq<Access>, c: Command, polls: seq<Access>)
    requires Ready(f.mode) && !c.ProgramByte?
    requires Writes(arm) == ARM && Writes(polls) == [] && |polls| >= 2
    ensures Run(f, arm + [Trigger(c)] + polls) == Mutate(f, Effect(f.data, c), ReadArray)
  {
    var t := Trigger(c);
    RunConcat(f, arm + [t], polls);
    RunConcat(f, arm, [t]);
    Arms(f, arm);
    var g := f.(mode := Erase5);
    RunOne(g, t);
    TriggerErases(g, c);
    HandshakeEnds(Do(g, t), polls);
  }

  /** The trace performs the command as a driver does: the command's writes with
      any reads among them, and after an erase at least the two status reads
      that end the handshake. */
  ghost predicate Performs(trace: seq<Access>, c: Command) {
    if c.ProgramByte? then Writes(trace) == Sequence(c)
    else exists arm, polls ::
           && Writes(arm) == ARM && Writes(polls) == [] && |polls| >= 2
           && trace == arm + [Trigger(c)] + polls
  }

  ghost predicate PerformsAll(traces: seq<seq<Access>>, cs: seq<Command>) {
    |traces| == |cs| && forall i | 0 <= i < |cs| :: Performs(traces[i], cs[i])
  }

  function Flatten(traces: seq<seq<Access>>): seq<Access> {
    if traces == [] then [] else traces[0] + Flatten(traces[1..])
  }

  function Replay(data: Image, cs: seq<Command>): Image
    decreases cs
  {
    if cs == [] then data else Replay(Effect(data, cs[0]), cs[1..])
  }

  /** For every list of commands, performed back to back from any ready state,
      the array ends as the commands' effects in order. */
  lemma {:induction false} CommandsReplay(f: Flash, traces: seq<seq<Access>>, cs: seq<Command>)
    requires Ready(f.mode) && PerformsAll(traces, cs)
    ensures Run(f, Flatten(traces)).data == Replay(f.data, cs)
    ensures cs != [] ==> Run(f, Flatten(traces)).mode.ReadArray? && Run(f, Flatten(traces)).dirty
    decreases |cs|
  {
    if cs != [] {
      var c := cs[0];
      var g := Mutate(f, Effect(f.data, c), ReadArray);
      assert Performs(traces[0], c);
      if c.ProgramByte? {
        ProgramWorks(f, traces[0], c.off, c.d);
      } else {
        var arm, polls :|
          && Writes(arm) == ARM && Writes(polls) == [] && |polls| >= 2
          && traces[0] == arm + [Trigger(c)] + polls;
        EraseWorks(f, arm, c, polls);
      }
      RunConcat(f, traces[0], Flatten(traces[1..]));
      CommandsReplay(g, traces[1..], cs[1..]);
    }
  }

  // ---- Any trace at all ----

  /** A recognizer of the datasheet's command table that knows nothing of the
      mode machine: the writes of the command under way, and the number of
      status reads that an erase still answers. */
  datatype Reader = Reader(buf: seq<Access>, busy: nat)

  /** The writes are a whole command, or a beginning of one. */
  ghost predicate Whole(ws: seq<Access>) { exists c :: ws == Sequence(c) }
  ghost predicate Begun(ws: seq<Access>) { exists c :: ws < Sequence(c) }

  ghost function CommandOf(ws: seq<Access>): (c: Command)
    requires Whole(ws)
    ensures ws == Sequence(c)
  {
    var c :| ws == Sequence(c); c
  }

  /** A write extends the command under way, completes it, or abandons it and is
      itself swallowed.  Reads do not disturb a command; after an erase the first
      two reads, or a write that is swallowed, end the status phase. */
  ghost function Feed(r: Reader, a: Access): Reader {
    if r.busy > 0 then Reader([], if a.R? then r.busy - 1 else 0)
    else if a.R? then r
    else
      var ws := r.buf + [a];
      if Whole(ws) then Reader([], if CommandOf(ws).ProgramByte? then 0 else 2)
      else if Begun(ws) then Reader(ws, 0)
      else Reader([], 0)
  }

  ghost function Emits(r: Reader, a: Access): seq<Command> {
    if r.busy == 0 && a.W? && Whole(r.buf + [a]) then [CommandOf(r.buf + [a])] else []
  }

  /** The commands that the trace completes, in order. */
  ghost function Completed(r: Reader, trace: seq<Access>): seq<Command>
    decreases trace
  {
    if trace == [] then [] else Emits(r, trace[0]) + Completed(Feed(r, trace[0]), trace[1..])
  }

  ghost function FeedAll(r: Reader, trace: seq<Access>): Reader
    decreases trace
  {
    if trace == [] then r else FeedAll(Feed(r, trace[0]), trace[1..])
  }

  function ReaderOf(m: Mode): Reader {
    Reader(Prefix(m), match m case Confirm1 => 2 case Confirm0 => 1 case _ => 0)
  }

  const PROGRAM3: seq<Access> := UNLOCK + [W(UNLOCK1, 0xA0)]

  lemma Tables()
    ensures ARM == [W(UNLOCK1, 0xAA), W(UNLOCK2, 0x55), W(UNLOCK1, 0x80), W(UNLOCK1, 0xAA), W(UNLOCK2, 0x55)]
    ensures PROGRAM3 == [W(UNLOCK1, 0xAA), W(UNLOCK2, 0x55), W(UNLOCK1, 0xA0)]
  {
  }

  /** The shape of a whole command. */
  lemma SequenceIs(c: Command)
    ensures c.ProgramByte? ==> Sequence(c) == PROGRAM3 + [W(c.off, c.d)]
    ensures c.EraseOne? ==> Sequence(c) == ARM + [W(c.off, 0x30)]
    ensures c.EraseAll? ==> Sequence(c) == ARM + [W(UNLOCK1, 0x10)]
  {
  }

  lemma Extends(p: seq<Access>, a: Access, q: seq<Access>)
    ensures p + [a] <= q <==> p <= q && |p| < |q| && q[|p|] == a
  {
    if p <= q && |p| < |q| && q[|p|] == a {
      assert q[..|p| + 1] == p + [a];
    }
    if p + [a] <= q {
      assert (p + [a])[|p|] == a;
      assert forall i | 0 <= i < |p| :: (p + [a])[i] == p[i];
    }
  }

  lemma ProperPrefix(ws: seq<Access>, q: seq<Access>, last: Access)
    ensures ws < q + [last] <==> ws <= q
  {
    if ws <= q { assert forall i | 0 <= i < |ws| :: (q + [last])[i] == q[i]; }
    if ws < q + [last] { assert forall i | 0 <= i < |ws| :: (q + [last])[i] == q[i]; }
  }

  lemma BegunIs(ws: seq<Access>)
    ensures Begun(ws) <==> ws <= ARM || ws <= PROGRAM3
  {
    if c :| ws < Sequence(c) {
      SequenceIs(c);
      ProperPrefix(ws, if c.ProgramByte? then PROGRAM3 else ARM, Sequence(c)[|Sequence(c)| - 1]);
    }
    if ws <= ARM {
      SequenceIs(EraseAll);
      ProperPrefix(ws, ARM, W(UNLOCK1, 0x10));
      assert ws < Sequence(EraseAll);
    }
    if ws <= PROGRAM3 {
      var c := ProgramByte(0, 0);
      SequenceIs(c);
      ProperPrefix(ws, PROGRAM3, W(0, 0));
      assert ws < Sequence(c);
    }
  }

  lemma SnocEq(p: seq<Access>, a: Access, q: seq<Access>, b: Access)
    ensures p + [a] == q + [b] <==> p == q && a == b
  {
    if p + [a] == q + [b] {
      assert (p + [a])[..|p|] == p && (q + [b])[..|q|] == q;
      assert (p + [a])[|p|] == a;
    }
  }

  /** Which single write completes which command after the writes p. */
  lemma CompletesIs(p: seq<Access>, a: Access, c: Command)
    requires a.W?
    ensures p + [a] == Sequence(c) <==>
            if c.ProgramByte? then p == PROGRAM3 && a == W(c.off, c.d)
            else p == ARM && a == Trigger(c)
  {
    SequenceIs(c);
    if c.ProgramByte? { SnocEq(p, a, PROGRAM3, W(c.off, c.d)); } else { SnocEq(p, a, ARM, Trigger(c)); }
  }

  lemma WholeIs(p: seq<Access>, a: Access)
    requires a.W?
    ensures Whole(p + [a]) <==> p == PROGRAM3 || (p == ARM && (a.d == 0x30 || a == W(UNLOCK1, 0x10)))
    ensures Whole(p + [a]) ==>
              CommandOf(p + [a]) == if p == PROGRAM3 then ProgramByte(a.off, a.d)
                                    else if a == W(UNLOCK1, 0x10) then EraseAll
                                    else EraseOne(a.off)
  {
    Tables();
    if Whole(p + [a]) { CompletesIs(p, a, CommandOf(p + [a])); }
    CompletesIs(p, a, ProgramByte(a.off, a.d));
    CompletesIs(p, a, EraseOne(a.off));
    CompletesIs(p, a, EraseAll);
  }

  /** Where the mode machine stands in the two tables. */
  lemma PrefixPlace(m: Mode)
    ensures Prefix(m) == PROGRAM3 <==> m.Program?
    ensures Prefix(m) == ARM <==> m.Erase5?
    ensures Prefix(m) <= PROGRAM3 <==> !m.Erase3? && !m.Erase4? && !m.Erase5?
    ensures Prefix(m) <= ARM <==> !m.Program?
  {
    Tables();
    var p := Prefix(m);
    assert m.Erase3? || m.Erase4? || m.Erase5? ==> p[2] == W(UNLOCK1, 0x80);
    assert m.Program? ==> p[2] == W(UNLOCK1, 0xA0);
  }

  /** The hand-written mode machine is the recognizer: one access. */
  lemma FeedTracks(f: Flash, a: Access)
    ensures ReaderOf(Do(f, a).mode) == Feed(ReaderOf(f.mode), a)
    ensures Do(f, a).data == Replay(f.data, Emits(ReaderOf(f.mode), a))
  {
    if a.W? && Steady(f.mode) { WriteTracks(f, a); }
  }

  lemma WriteTracks(f: Flash, a: Access)
    requires a.W? && Steady(f.mode)
    ensures ReaderOf(Do(f, a).mode) == Feed(ReaderOf(f.mode), a)
    ensures Do(f, a).data == Replay(f.data, Emits(ReaderOf(f.mode), a))
  {
    var p := Prefix(f.mode);
    PrefixPlace(f.mode);
    WholeIs(p, a);
    if Whole(p + [a]) {
      ReplayOne(f.data, CommandOf(p + [a]));
    } else {
      Tables();
      BegunIs(p + [a]);
      Extends(p, a, ARM);
      Extends(p, a, PROGRAM3);
      WriteExtends(f, a);
    }
  }

  lemma ReplayOne(data: Image, c: Command)
    ensures Replay(data, [c]) == Effect(data, c)
  {
    assert [c][1..] == [];
  }

  /** A write that completes nothing extends the prefix exactly when it is the
      next write of a table. */
  lemma WriteExtends(f: Flash, a: Access)
    requires a.W? && Steady(f.mode) && !Whole(Prefix(f.mode) + [a])
    ensures var p, q := Prefix(f.mode), Prefix(Do(f, a).mode);
            && (p + [a] <= ARM || p + [a] <= PROGRAM3 ==> q == p + [a])
            && (!(p + [a] <= ARM || p + [a] <= PROGRAM3) ==> q == [])
            && Steady(Do(f, a).mode) && Do(f, a).data == f.data
  {
    var p := Prefix(f.mode);
    Tables();
    PrefixPlace(f.mode);
    WholeIs(p, a);
    Extends(p, a, ARM);
    Extends(p, a, PROGRAM3);
    PrefixGrows(f, a);
  }

  lemma {:induction false} ReplayConcat(data: Image, a: seq<Command>, b: seq<Command>)
    ensures Replay(data, a + b) == Replay(Replay(data, a), b)
    decreases a
  {
    if a == [] {
      assert a + b == b;
    } else {
      assert (a + b)[1..] == a[1..] + b;
      ReplayConcat(Effect(data, a[0]), a[1..], b);
    }
  }

  /** For every trace of reads and writes at all, from every mode, the array is
      the replay of exactly the commands that the recognizer finds in the trace:
      none is lost, none is invented, and they take effect in order. */
  lemma {:induction false} EveryTraceReplays(f: Flash, trace: seq<Access>)
    ensures Run(f, trace).data == Replay(f.data, Completed(ReaderOf(f.mode), trace))
    ensures ReaderOf(Run(f, trace).mode) == FeedAll(ReaderOf(f.mode), trace)
    decreases trace
  {
    if trace != [] {
      var a, g := trace[0], Do(f, trace[0]);
      FeedTracks(f, a);
      EveryTraceReplays(g, trace[1..]);
      ReplayConcat(f.data, Emits(ReaderOf(f.mode), a), Completed(ReaderOf(g.mode), trace[1..]));
    }
  }

  /** What the recognizer holds is always the end of the writes so far. */
  lemma {:induction false} HoldsLastWrites(r: Reader, ws: seq<Access>, trace: seq<Access>)
    requires EndsWith(ws, r.buf)
    ensures EndsWith(ws + Writes(trace), FeedAll(r, trace).buf)
    decreases trace
  {
    if trace == [] {
      assert ws + Writes(trace) == ws;
    } else {
      var a := trace[0];
      WritesCons(trace);
      Associate(ws, Writes([a]), Writes(trace[1..]));
      assert EndsWith(ws + Writes([a]), Feed(r, a).buf) by {
        assert [a][1..] == [];
        if a.W? { WritesOne(a); EndsWithSnoc(ws, r.buf, a); } else { assert ws + Writes([a]) == ws; }
      }
      HoldsLastWrites(Feed(r, a), ws + Writes([a]), trace[1..]);
    }
  }

  /** A command completed by an access ends a whole command sequence: its writes
      are the most recent writes of the trace. */
  lemma CompletedIsWhole(trace: seq<Access>, a: Access, c: Command)
    requires Emits(FeedAll(Reader([], 0), trace), a) == [c]
    ensures EndsWith(Writes(trace) + [a], Sequence(c))
  {
    var r := FeedAll(Reader([], 0), trace);
    HoldsLastWrites(Reader([], 0), [], trace);
    assert [] + Writes(trace) == Writes(trace);
    EndsWithSnoc(Writes(trace), r.buf, a);
  }

  lemma WritesOne(a: Access)
    requires a.W?
    ensures Writes([a]) == [a]
  {
    assert [a][1..] == [];
  }
}

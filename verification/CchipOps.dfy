/** The Cchip's shared interrupt state and its operations, each given twice:
    as the list of atomic actions the code performs, in order, and as one
    sequential transition (chipsetLib/TsunamiCchip.h). */
module CchipOps {
  import opened Words
  import opened MiscSpec

  type Latches = s: seq<bool> | |s| == MAX_CPUS
    witness [false, false, false, false]

  const NO_LATCH: Latches := [false, false, false, false]

  /** m_misc, m_drir, m_pendingIrq2 and m_pendingIrq3. */
  datatype Shared = Shared(misc: Word, drir: Word, irq2: Latches, irq3: Latches)

  type Line = b: nat | b < 64

  /** DRIR<63>, the mirror of MISC<NXM>. */
  const NXM_LINE: Line := 63

  /** One atomic access to the shared state.  Irq2 and Irq3 are the latch stores
      of the chipset's own calls; Take2 and Take3 are the run loop's clears of
      the same latches when a CPU takes the interrupt. */
  datatype Action =
    | CasTimer(n: Cpu)
    | CasNxm(src: Word)
    | CasWrite(w: Word)
    | DrirOr(line: Line)
    | DrirAnd(line: Line)
    | Irq2(n: Cpu, level: bool)
    | Irq3(n: Cpu, level: bool)
    | Take2(n: Cpu)
    | Take3(n: Cpu)
  {
    predicate Cas?() { CasTimer? || CasNxm? || CasWrite? }

    /** The word a CAS loop stages from the word it has read. */
    function Stage(m: Word): Word
      requires Cas?()
    {
      match this
      case CasTimer(n) => TimerWord(m, n)
      case CasNxm(src) => NxmWord(m, src)
      case CasWrite(w) => WriteWord(m, w)
    }
  }

  function Apply(s: Shared, a: Action): Shared {
    match a
    case DrirOr(line) => s.(drir := s.drir + {line})
    case DrirAnd(line) => s.(drir := s.drir - {line})
    case Irq2(n, level) => s.(irq2 := s.irq2[n := level])
    case Irq3(n, level) => s.(irq3 := s.irq3[n := level])
    case Take2(n) => s.(irq2 := s.irq2[n := false])
    case Take3(n) => s.(irq3 := s.irq3[n := false])
    case _ => s.(misc := a.Stage(s.misc))
  }

  function Replay(s: Shared, acts: seq<Action>): Shared
    decreases acts
  {
    if acts == [] then s else Replay(Apply(s, acts[0]), acts[1..])
  }

  lemma {:induction false} ReplayConcat(s: Shared, a: seq<Action>, b: seq<Action>)
    ensures Replay(s, a + b) == Replay(Replay(s, a), b)
    decreases a
  {
    if a == [] {
      assert a + b == b;
    } else {
      assert (a + b)[0] == a[0] && (a + b)[1..] == a[1..] + b;
      ReplayConcat(Apply(s, a[0]), a[1..], b);
    }
  }

  /** The calls that reach the interrupt state.  AckTimer and AckIpi are the
      latch clears that the run loop makes when it delivers an interrupt. */
  datatype Op =
    | FireTimer
    | LatchNxm(src: Word)
    | WriteMisc(w: Word)
    | Assert(line: Line)
    | Deassert(line: Line)
    | AckTimer(n: Cpu)
    | AckIpi(n: Cpu)

  // ---- The operations as lists of atomic actions ----

  function TimerActions(cpus: int, n: nat): seq<Action>
    requires n <= MAX_CPUS
    decreases MAX_CPUS - n
  {
    if n < cpus && n < MAX_CPUS then [CasTimer(n), Irq2(n, true)] + TimerActions(cpus, n + 1) else []
  }

  function ClearTimerActions(w: Word, n: nat): seq<Action>
    requires n <= MAX_CPUS
    decreases MAX_CPUS - n
  {
    if n == MAX_CPUS then []
    else (if 4 + n in w then [Irq2(n, false)] else []) + ClearTimerActions(w, n + 1)
  }

  function RaiseIpiActions(cpus: int, w: Word, n: nat): seq<Action>
    requires n <= MAX_CPUS
    decreases MAX_CPUS - n
  {
    if n < cpus && n < MAX_CPUS then
      (if 12 + n in w then [Irq3(n, true)] else []) + RaiseIpiActions(cpus, w, n + 1)
    else []
  }

  function ClearIpiActions(w: Word, n: nat): seq<Action>
    requires n <= MAX_CPUS
    decreases MAX_CPUS - n
  {
    if n == MAX_CPUS then []
    else (if 8 + n in w then [Irq3(n, false)] else []) + ClearIpiActions(w, n + 1)
  }

  /** What miscWriteW1C does after its CAS has landed. */
  function SideActions(cpus: int, w: Word): seq<Action> {
    ClearTimerActions(w, 0)
    + (if NXM in w then [DrirAnd(NXM_LINE)] else [])
    + RaiseIpiActions(cpus, w, 0)
    + ClearIpiActions(w, 0)
  }

  function Compile(cpus: int, op: Op): seq<Action> {
    match op
    case FireTimer => TimerActions(cpus, 0)
    case LatchNxm(src) => [CasNxm(src), DrirOr(NXM_LINE)]
    case WriteMisc(w) => [CasWrite(w)] + SideActions(cpus, w)
    case Assert(line) => [DrirOr(line)]
    case Deassert(line) => [DrirAnd(line)]
    case AckTimer(n) => [Take2(n)]
    case AckIpi(n) => [Take3(n)]
  }

  // ---- The operations as single transitions ----

  /** Every configured CPU's ITINTR bit. */
  function TimerBits(cpus: int): (r: Word)
    ensures forall b :: b in r <==> 4 <= b < 8 && b - 4 < cpus
  {
    set b | b in ITINTR && b - 4 < cpus
  }

  function Latched(was: Latches, set_: Word, lsb: nat, cpus: int): (r: Latches)
    ensures forall n: Cpu :: r[n] == (was[n] || (n < cpus && lsb + n in set_))
  {
    seq(MAX_CPUS, n requires 0 <= n < MAX_CPUS => was[n] || (n < cpus && lsb + n in set_))
  }

  function Dropped(was: Latches, cleared: Word, lsb: nat): (r: Latches)
    ensures forall n: Cpu :: r[n] == (was[n] && lsb + n !in cleared)
  {
    seq(MAX_CPUS, n requires 0 <= n < MAX_CPUS => was[n] && lsb + n !in cleared)
  }

  /** The transition of one call that runs alone, on a system of `cpus` CPUs. */
  function Perform(cpus: int, s: Shared, op: Op): Shared {
    match op
    case FireTimer =>
      s.(misc := s.misc + TimerBits(cpus), irq2 := Latched(s.irq2, ITINTR, 4, cpus))
    case LatchNxm(src) =>
      s.(misc := NxmWord(s.misc, src), drir := s.drir + {NXM_LINE})
    case WriteMisc(w) =>
      Shared(WriteWord(s.misc, w),
             if NXM in w then s.drir - {NXM_LINE} else s.drir,
             Dropped(s.irq2, w, 4),
             Dropped(Latched(s.irq3, w, 12, cpus), w, 8))
    case Assert(line) => s.(drir := s.drir + {line})
    case Deassert(line) => s.(drir := s.drir - {line})
    case AckTimer(n) => s.(irq2 := s.irq2[n := false])
    case AckIpi(n) => s.(irq3 := s.irq3[n := false])
  }

  // ---- The two readings agree ----

  lemma {:induction false} ReplayTimer(cpus: int, s: Shared, n: nat)
    requires n <= MAX_CPUS
    ensures var r := Replay(s, TimerActions(cpus, n));
            && r.misc == s.misc + (set b | b in ITINTR && n <= b - 4 < cpus)
            && r.drir == s.drir && r.irq3 == s.irq3
            && forall k: Cpu :: r.irq2[k] == (s.irq2[k] || n <= k < cpus)
    decreases MAX_CPUS - n
  {
    if n < cpus && n < MAX_CPUS {
      ReplayConcat(s, [CasTimer(n), Irq2(n, true)], TimerActions(cpus, n + 1));
      var s1 := Apply(s, CasTimer(n));
      var s2 := Apply(s1, Irq2(n, true));
      ReplayConcat(s, [CasTimer(n)], [Irq2(n, true)]);
      ReplayOne(s, CasTimer(n));
      ReplayOne(s1, Irq2(n, true));
      assert [CasTimer(n), Irq2(n, true)] == [CasTimer(n)] + [Irq2(n, true)];
      ReplayTimer(cpus, s2, n + 1);
    }
  }

  lemma {:induction false} ReplayClearTimer(s: Shared, w: Word, n: nat)
    requires n <= MAX_CPUS
    ensures var r := Replay(s, ClearTimerActions(w, n));
            && r.misc == s.misc && r.drir == s.drir && r.irq3 == s.irq3
            && forall k: Cpu :: r.irq2[k] == (s.irq2[k] && (n <= k ==> 4 + k !in w))
    decreases MAX_CPUS - n
  {
    if n < MAX_CPUS {
      var head := if 4 + n in w then [Irq2(n, false)] else [];
      ReplayConcat(s, head, ClearTimerActions(w, n + 1));
      ReplayOne(s, Irq2(n, false));
      ReplayClearTimer(if 4 + n in w then Apply(s, Irq2(n, false)) else s, w, n + 1);
    }
  }

  lemma {:induction false} ReplayRaiseIpi(cpus: int, s: Shared, w: Word, n: nat)
    requires n <= MAX_CPUS
    ensures var r := Replay(s, RaiseIpiActions(cpus, w, n));
            && r.misc == s.misc && r.drir == s.drir && r.irq2 == s.irq2
            && forall k: Cpu :: r.irq3[k] == (s.irq3[k] || (n <= k < cpus && 12 + k in w))
    decreases MAX_CPUS - n
  {
    if n < cpus && n < MAX_CPUS {
      var head := if 12 + n in w then [Irq3(n, true)] else [];
      ReplayConcat(s, head, RaiseIpiActions(cpus, w, n + 1));
      ReplayOne(s, Irq3(n, true));
      ReplayRaiseIpi(cpus, if 12 + n in w then Apply(s, Irq3(n, true)) else s, w, n + 1);
    }
  }

  lemma {:induction false} ReplayClearIpi(s: Shared, w: Word, n: nat)
    requires n <= MAX_CPUS
    ensures var r := Replay(s, ClearIpiActions(w, n));
            && r.misc == s.misc && r.drir == s.drir && r.irq2 == s.irq2
            && forall k: Cpu :: r.irq3[k] == (s.irq3[k] && (n <= k ==> 8 + k !in w))
    decreases MAX_CPUS - n
  {
    if n < MAX_CPUS {
      var head := if 8 + n in w then [Irq3(n, false)] else [];
      ReplayConcat(s, head, ClearIpiActions(w, n + 1));
      ReplayOne(s, Irq3(n, false));
      ReplayClearIpi(if 8 + n in w then Apply(s, Irq3(n, false)) else s, w, n + 1);
    }
  }

  lemma ReplayOne(s: Shared, a: Action)
    ensures Replay(s, [a]) == Apply(s, a)
  {
    assert [a][1..] == [];
  }

  lemma ReplayFour(s: Shared, a: seq<Action>, b: seq<Action>, c: seq<Action>, d: seq<Action>)
    ensures Replay(s, a + b + c + d) == Replay(Replay(Replay(Replay(s, a), b), c), d)
  {
    ReplayConcat(s, a + b + c, d);
    ReplayConcat(s, a + b, c);
    ReplayConcat(s, a, b);
  }

  lemma ReplayMirror(s: Shared, w: Word)
    ensures Replay(s, if NXM in w then [DrirAnd(NXM_LINE)] else []) ==
            s.(drir := if NXM in w then s.drir - {NXM_LINE} else s.drir)
  {
    ReplayOne(s, DrirAnd(NXM_LINE));
  }

  lemma ReplaySide(cpus: int, s: Shared, w: Word)
    ensures Replay(s, SideActions(cpus, w)) ==
            Shared(s.misc,
                   if NXM in w then s.drir - {NXM_LINE} else s.drir,
                   Dropped(s.irq2, w, 4),
                   Dropped(Latched(s.irq3, w, 12, cpus), w, 8))
  {
    var a, c, d := ClearTimerActions(w, 0), RaiseIpiActions(cpus, w, 0), ClearIpiActions(w, 0);
    var b := if NXM in w then [DrirAnd(NXM_LINE)] else [];
    ReplayFour(s, a, b, c, d);
    ReplayClearTimer(s, w, 0);
    var s1 := Replay(s, a);
    assert s1.irq2 == Dropped(s.irq2, w, 4);
    ReplayMirror(s1, w);
    var s2 := Replay(s1, b);
    ReplayRaiseIpi(cpus, s2, w, 0);
    var s3 := Replay(s2, c);
    assert s3.irq3 == Latched(s.irq3, w, 12, cpus);
    ReplayClearIpi(s3, w, 0);
    assert Replay(s3, d).irq3 == Dropped(s3.irq3, w, 8);
  }

  /** Running a call's atomic actions back to back is its transition. */
  lemma CompilePerforms(cpus: int, s: Shared, op: Op)
    ensures Replay(s, Compile(cpus, op)) == Perform(cpus, s, op)
  {
    match op
    case FireTimer =>
      ReplayTimer(cpus, s, 0);
      var r := Replay(s, TimerActions(cpus, 0));
      assert r.misc == s.misc + TimerBits(cpus);
      assert r.irq2 == Latched(s.irq2, ITINTR, 4, cpus);
    case LatchNxm(src) =>
      var acts := Compile(cpus, op);
      assert acts[1..] == [DrirOr(NXM_LINE)];
      ReplayOne(Apply(s, acts[0]), acts[1]);
    case WriteMisc(w) =>
      ReplayConcat(s, [CasWrite(w)], SideActions(cpus, w));
      ReplayOne(s, CasWrite(w));
      ReplaySide(cpus, Apply(s, CasWrite(w)), w);
    case _ => ReplayOne(s, Compile(cpus, op)[0]);
  }
}

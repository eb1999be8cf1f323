/** When a MISC bit and the separate atomic that delivers it agree although the
    calls that update them interleave: MISC<NXM> with DRIR<63>, and
    MISC<ITINTR> and MISC<IPINTR> with the latches of the same CPU
    (chipsetLib/TsunamiCchip.h:642-702, 1257-1435). */
module LatchRuns {
  import opened Words
  import opened MiscSpec
  import opened CchipOps
  import opened MiscCas

  /** A MISC bit with its delivery atomic. */
  datatype Watch = NxmMirror | TimerLatch(n: Cpu) | IpiLatch(n: Cpu)
  {
    /** The MISC bit. */
    predicate Source(s: Shared) {
      match this
      case NxmMirror => NXM in s.misc
      case TimerLatch(n) => 4 + n in s.misc
      case IpiLatch(n) => 8 + n in s.misc
    }

    /** What is delivered for it. */
    predicate Shown(s: Shared) {
      match this
      case NxmMirror => NXM_LINE in s.drir
      case TimerLatch(n) => s.irq2[n]
      case IpiLatch(n) => s.irq3[n]
    }

    /** The level to which an action sets the MISC bit. */
    function Sets(a: Action): Level {
      match this
      case NxmMirror =>
        if a.CasNxm? then To(true) else if a.CasWrite? && NXM in a.w then To(false) else Unset
      case TimerLatch(n) =>
        if a == CasTimer(n) then To(true) else if a.CasWrite? && 4 + n in a.w then To(false) else Unset
      case IpiLatch(n) =>
        if !a.CasWrite? then Unset
        else if 12 + n in a.w then To(true)
        else if 8 + n in a.w then To(false)
        else Unset
    }

    /** The level to which an action sets what is delivered. */
    function Shows(a: Action): Level {
      match this
      case NxmMirror =>
        if a == DrirOr(NXM_LINE) then To(true) else if a == DrirAnd(NXM_LINE) then To(false) else Unset
      case TimerLatch(n) =>
        if a.Irq2? && a.n == n then To(a.level) else Unset
      case IpiLatch(n) =>
        if a.Irq3? && a.n == n then To(a.level) else Unset
    }

    /** The CPU takes the interrupt. */
    predicate Takes(a: Action) {
      (TimerLatch? && a == Take2(n)) || (IpiLatch? && a == Take3(n))
    }

    predicate TakeCall(op: Op) {
      (TimerLatch? && op == AckTimer(n)) || (IpiLatch? && op == AckIpi(n))
    }

    /** The call does not part the two sides all by itself: no device drives line
        63, and no IPI is requested of a CPU that is not configured or in the
        write that acknowledges it. */
    predicate Together(cpus: int, op: Op) {
      match this
      case NxmMirror => op != Assert(NXM_LINE) && op != Deassert(NXM_LINE)
      case TimerLatch(_) => true
      case IpiLatch(n) => op.WriteMisc? && 12 + n in op.w ==> n < cpus && 8 + n !in op.w
    }
  }

  datatype Level = Unset | To(level: bool)

  /** The delivery update that the call in progress still owes: the first one
      due before the program's next CAS. */
  function Owed(v: Watch, todo: seq<Action>): Level
    decreases todo
  {
    if todo == [] || todo[0].Cas?() then Unset
    else if v.Shows(todo[0]).To? then v.Shows(todo[0])
    else Owed(v, todo[1..])
  }

  /** Every CAS is followed by the delivery update for the level it set, and
      there is no other delivery update. */
  ghost predicate Paired(v: Watch, todo: seq<Action>)
    decreases todo
  {
    todo == [] ||
    (Paired(v, todo[1..])
     && (todo[0].Cas?() ==> Owed(v, todo[1..]) == v.Sets(todo[0]))
     && (v.Shows(todo[0]).To? ==> Owed(v, todo[1..]) == Unset))
  }

  /** Paired, with nothing owed at the start. */
  ghost predicate Square(v: Watch, todo: seq<Action>) {
    Paired(v, todo) && Owed(v, todo) == Unset
  }

  // ---- Programs made of calls are paired ----

  function Program(cpus: int, ops: seq<Op>): seq<Action> {
    if ops == [] then [] else Compile(cpus, ops[0]) + Program(cpus, ops[1..])
  }

  lemma Cons(v: Watch, a: Action, rest: seq<Action>)
    requires Paired(v, rest)
    requires a.Cas?() ==> Owed(v, rest) == v.Sets(a)
    requires v.Shows(a).To? ==> Owed(v, rest) == Unset
    ensures Paired(v, [a] + rest)
    ensures Owed(v, [a] + rest) ==
            if a.Cas?() then Unset else if v.Shows(a).To? then v.Shows(a) else Owed(v, rest)
  {
    assert ([a] + rest)[1..] == rest;
  }

  lemma Assoc(a: Action, b: seq<Action>, c: seq<Action>)
    ensures [a] + b + c == [a] + (b + c)
  {
  }

  lemma AssocTwo(a: Action, b: Action, c: seq<Action>, d: seq<Action>)
    ensures [a, b] + c + d == [a] + ([b] + (c + d))
  {
  }

  /** The timer-latch clears of a write, ahead of what the write still owes. */
  lemma {:induction false} TimerClears(v: Watch, w: Word, k: nat, rest: seq<Action>)
    requires k <= MAX_CPUS && Paired(v, rest)
    requires v.TimerLatch? ==> Owed(v, rest) == Unset
    ensures Paired(v, ClearTimerActions(w, k) + rest)
    ensures Owed(v, ClearTimerActions(w, k) + rest) ==
            if v.TimerLatch? && k <= v.n && 4 + v.n in w then To(false) else Owed(v, rest)
    decreases MAX_CPUS - k
  {
    if k == MAX_CPUS {
      assert ClearTimerActions(w, k) + rest == rest;
    } else {
      TimerClears(v, w, k + 1, rest);
      if 4 + k in w {
        Cons(v, Irq2(k, false), ClearTimerActions(w, k + 1) + rest);
        Assoc(Irq2(k, false), ClearTimerActions(w, k + 1), rest);
      } else {
        assert ClearTimerActions(w, k) == ClearTimerActions(w, k + 1);
      }
    }
  }

  /** The IPI-latch raises of a write. */
  lemma {:induction false} IpiRaises(v: Watch, cpus: int, w: Word, k: nat, rest: seq<Action>)
    requires k <= MAX_CPUS && Paired(v, rest)
    requires v.IpiLatch? && 12 + v.n in w ==> Owed(v, rest) == Unset
    ensures Paired(v, RaiseIpiActions(cpus, w, k) + rest)
    ensures Owed(v, RaiseIpiActions(cpus, w, k) + rest) ==
            if v.IpiLatch? && k <= v.n < cpus && 12 + v.n in w then To(true) else Owed(v, rest)
    decreases MAX_CPUS - k
  {
    if k < cpus && k < MAX_CPUS {
      IpiRaises(v, cpus, w, k + 1, rest);
      if 12 + k in w {
        Cons(v, Irq3(k, true), RaiseIpiActions(cpus, w, k + 1) + rest);
        Assoc(Irq3(k, true), RaiseIpiActions(cpus, w, k + 1), rest);
      } else {
        assert RaiseIpiActions(cpus, w, k) == RaiseIpiActions(cpus, w, k + 1);
      }
    } else {
      assert RaiseIpiActions(cpus, w, k) + rest == rest;
    }
  }

  /** The IPI-latch clears of a write. */
  lemma {:induction false} IpiClears(v: Watch, w: Word, k: nat, rest: seq<Action>)
    requires k <= MAX_CPUS && Paired(v, rest)
    requires v.IpiLatch? ==> Owed(v, rest) == Unset
    ensures Paired(v, ClearIpiActions(w, k) + rest)
    ensures Owed(v, ClearIpiActions(w, k) + rest) ==
            if v.IpiLatch? && k <= v.n && 8 + v.n in w then To(false) else Owed(v, rest)
    decreases MAX_CPUS - k
  {
    if k == MAX_CPUS {
      assert ClearIpiActions(w, k) + rest == rest;
    } else {
      IpiClears(v, w, k + 1, rest);
      if 8 + k in w {
        Cons(v, Irq3(k, false), ClearIpiActions(w, k + 1) + rest);
        Assoc(Irq3(k, false), ClearIpiActions(w, k + 1), rest);
      } else {
        assert ClearIpiActions(w, k) == ClearIpiActions(w, k + 1);
      }
    }
  }

  lemma MirrorClear(v: Watch, w: Word, rest: seq<Action>)
    requires Paired(v, rest)
    requires v.NxmMirror? ==> Owed(v, rest) == Unset
    ensures var all := (if NXM in w then [DrirAnd(NXM_LINE)] else []) + rest;
            Paired(v, all) && Owed(v, all) == if v.NxmMirror? then v.Sets(CasWrite(w)) else Owed(v, rest)
  {
    if NXM in w {
      Cons(v, DrirAnd(NXM_LINE), rest);
    } else {
      assert [] + rest == rest;
    }
  }

  lemma Regroup(a: seq<Action>, b: seq<Action>, c: seq<Action>, d: seq<Action>, e: seq<Action>)
    ensures a + b + c + d + e == a + (b + (c + (d + e)))
  {
  }

  lemma SidePaired(v: Watch, cpus: int, w: Word, rest: seq<Action>)
    requires Square(v, rest) && v.Together(cpus, WriteMisc(w))
    ensures Paired(v, SideActions(cpus, w) + rest)
    ensures Owed(v, SideActions(cpus, w) + rest) == v.Sets(CasWrite(w))
  {
    var raise, clear := RaiseIpiActions(cpus, w, 0), ClearIpiActions(w, 0);
    var mirror := if NXM in w then [DrirAnd(NXM_LINE)] else [];
    IpiClears(v, w, 0, rest);
    IpiRaises(v, cpus, w, 0, clear + rest);
    MirrorClear(v, w, raise + (clear + rest));
    TimerClears(v, w, 0, mirror + (raise + (clear + rest)));
    Regroup(ClearTimerActions(w, 0), mirror, raise, clear, rest);
  }

  lemma WritePaired(v: Watch, cpus: int, w: Word, rest: seq<Action>)
    requires Square(v, rest) && v.Together(cpus, WriteMisc(w))
    ensures Square(v, [CasWrite(w)] + SideActions(cpus, w) + rest)
  {
    SidePaired(v, cpus, w, rest);
    Cons(v, CasWrite(w), SideActions(cpus, w) + rest);
    Assoc(CasWrite(w), SideActions(cpus, w), rest);
  }

  lemma {:induction false} TimerPaired(v: Watch, cpus: int, k: nat, rest: seq<Action>)
    requires k <= MAX_CPUS && Square(v, rest)
    ensures Square(v, TimerActions(cpus, k) + rest)
    decreases MAX_CPUS - k
  {
    if k < cpus && k < MAX_CPUS {
      var tail := TimerActions(cpus, k + 1) + rest;
      TimerPaired(v, cpus, k + 1, rest);
      Cons(v, Irq2(k, true), tail);
      Cons(v, CasTimer(k), [Irq2(k, true)] + tail);
      AssocTwo(CasTimer(k), Irq2(k, true), TimerActions(cpus, k + 1), rest);
    } else {
      assert TimerActions(cpus, k) + rest == rest;
    }
  }

  lemma CallPaired(v: Watch, cpus: int, op: Op, rest: seq<Action>)
    requires v.Together(cpus, op) && Square(v, rest)
    ensures Square(v, Compile(cpus, op) + rest)
  {
    match op
    case FireTimer => TimerPaired(v, cpus, 0, rest);
    case LatchNxm(src) =>
      Cons(v, DrirOr(NXM_LINE), rest);
      Cons(v, CasNxm(src), [DrirOr(NXM_LINE)] + rest);
      assert Compile(cpus, op) + rest == [CasNxm(src)] + ([DrirOr(NXM_LINE)] + rest);
    case WriteMisc(w) => WritePaired(v, cpus, w, rest);
    case _ => Cons(v, Compile(cpus, op)[0], rest);
  }

  lemma {:induction false} ProgramPaired(v: Watch, cpus: int, ops: seq<Op>)
    requires forall op | op in ops :: v.Together(cpus, op)
    ensures Square(v, Program(cpus, ops))
    decreases ops
  {
    if ops != [] {
      ProgramPaired(v, cpus, ops[1..]);
      CallPaired(v, cpus, ops[0], Program(cpus, ops[1..]));
    }
  }

  // ---- The excluded calls ----

  ghost predicate Agree(v: Watch, s: Shared) { v.Source(s) <==> v.Shown(s) }

  ghost predicate KeepsAgreement(v: Watch, cpus: int, op: Op) {
    forall s: Shared | Agree(v, s) :: Agree(v, Perform(cpus, s, op))
  }

  /** What a whole call does to the two sides. */
  lemma PerformSides(v: Watch, cpus: int, s: Shared, op: Op)
    requires v.Together(cpus, op) && !v.TakeCall(op) && Agree(v, s)
    ensures Agree(v, Perform(cpus, s, op))
  {
    match op
    case WriteMisc(w) => WriteSides(v, cpus, s, w);
    case LatchNxm(src) =>
      NxmBits(s.misc, src, if v.NxmMirror? then NXM else if v.TimerLatch? then 4 + v.n else 8 + v.n);
    case _ =>
  }

  lemma WriteSides(v: Watch, cpus: int, s: Shared, w: Word)
    requires v.Together(cpus, WriteMisc(w)) && Agree(v, s)
    ensures Agree(v, Perform(cpus, s, WriteMisc(w)))
  {
    match v
    case NxmMirror => WriteBits(s.misc, w, NXM);
    case TimerLatch(n) => WriteTimer(cpus, s, w, n);
    case IpiLatch(n) => WriteIpi(cpus, s, w, n);
  }

  lemma WriteTimer(cpus: int, s: Shared, w: Word, n: Cpu)
    ensures var r := Perform(cpus, s, WriteMisc(w));
            (4 + n in r.misc <==> 4 + n in s.misc && 4 + n !in w) && (r.irq2[n] <==> s.irq2[n] && 4 + n !in w)
  {
    WriteBits(s.misc, w, 4 + n);
  }

  lemma WriteIpi(cpus: int, s: Shared, w: Word, n: Cpu)
    ensures var r := Perform(cpus, s, WriteMisc(w));
            && (8 + n in r.misc <==> (8 + n in s.misc && 8 + n !in w) || 12 + n in w)
            && (r.irq3[n] <==> (s.irq3[n] || (n < cpus && 12 + n in w)) && 8 + n !in w)
  {
    WriteBits(s.misc, w, 8 + n);
  }

  /** A state in which the two sides agree and a call that does not keep them
      together parts them. */
  lemma PartedAlone(v: Watch, cpus: int, op: Op) returns (s: Shared)
    requires !v.Together(cpus, op)
    ensures Agree(v, s) && !Agree(v, Perform(cpus, s, op))
  {
    if op == Deassert(NXM_LINE) {
      s := Shared({NXM}, {NXM_LINE}, NO_LATCH, NO_LATCH);
    } else {
      s := Shared({}, {}, NO_LATCH, NO_LATCH);
      if v.IpiLatch? { WriteBits(s.misc, op.w, 8 + v.n); }
    }
  }

  /** Apart from the CPU's own takes, the calls that Together leaves out are
      exactly those that part the two sides with nobody else running. */
  lemma TogetherIff(v: Watch, cpus: int, op: Op)
    requires !v.TakeCall(op)
    ensures v.Together(cpus, op) <==> KeepsAgreement(v, cpus, op)
  {
    if v.Together(cpus, op) {
      forall s: Shared | Agree(v, s) ensures Agree(v, Perform(cpus, s, op)) {
        PerformSides(v, cpus, s, op);
      }
    } else {
      var s := PartedAlone(v, cpus, op);
    }
  }

  // ---- Commit logs ----

  predicate IsSet(v: Watch, c: Commitment) { v.Sets(c.act).To? }
  predicate IsShow(v: Watch, c: Commitment) { v.Shows(c.act).To? }

  /** The agent neither moves nor delivers the bit strictly between c and k. */
  ghost predicate Untouched(v: Watch, log: seq<Commitment>, agent: nat, c: int, k: int) {
    forall m | c < m < k && 0 <= m < |log| && log[m].agent == agent :: !IsSet(v, log[m]) && !IsShow(v, log[m])
  }

  /** The commit at k is the delivery of the CAS at c, by the same call. */
  ghost predicate Delivers(v: Watch, log: seq<Commitment>, c: int, k: int) {
    && 0 <= c < k < |log|
    && log[c].agent == log[k].agent
    && IsSet(v, log[c]) && IsShow(v, log[k])
    && Untouched(v, log, log[c].agent, c, k)
  }

  /** What an agent owes after the log. */
  function Debt(v: Watch, log: seq<Commitment>, agent: nat): Level {
    if log == [] then Unset
    else
      var e, before := log[|log| - 1], log[..|log| - 1];
      if e.agent != agent then Debt(v, before, agent)
      else if e.act.Cas?() then v.Sets(e.act)
      else if IsShow(v, e) then Unset
      else Debt(v, before, agent)
  }

  /** The event is one that a call may commit with this debt. */
  ghost predicate Lawful(v: Watch, debt: Level, act: Action) {
    (act.Cas?() ==> debt == Unset) && (v.Shows(act).To? ==> debt == v.Shows(act))
  }

  ghost predicate LawfulLog(v: Watch, log: seq<Commitment>) {
    forall p | 0 <= p < |log| :: Lawful(v, Debt(v, log[..p], log[p].agent), log[p].act)
  }

  /** Position of the last CAS on the bit, and of the last delivery; -1 if
      there is none. */
  function LastSet(v: Watch, log: seq<Commitment>): (r: int)
    ensures -1 <= r < |log|
    ensures r >= 0 ==> IsSet(v, log[r])
    ensures forall m | r < m < |log| :: !IsSet(v, log[m])
  {
    if log == [] then -1
    else if IsSet(v, log[|log| - 1]) then |log| - 1
    else LastSet(v, log[..|log| - 1])
  }

  function LastShow(v: Watch, log: seq<Commitment>): (r: int)
    ensures -1 <= r < |log|
    ensures r >= 0 ==> IsShow(v, log[r])
    ensures forall m | r < m < |log| :: !IsShow(v, log[m])
  {
    if log == [] then -1
    else if IsShow(v, log[|log| - 1]) then |log| - 1
    else LastShow(v, log[..|log| - 1])
  }

  /** A CPU has taken the interrupt since the last delivery. */
  ghost predicate TakenSince(v: Watch, log: seq<Commitment>) {
    exists t | LastShow(v, log) < t < |log| :: v.Takes(log[t].act)
  }

  // ---- What a log does to the two sides ----

  lemma ApplyLevels(v: Watch, s: Shared, a: Action)
    ensures v.Source(Apply(s, a)) == if v.Sets(a).To? then v.Sets(a).level else v.Source(s)
    ensures v.Shown(Apply(s, a)) ==
            if v.Shows(a).To? then v.Shows(a).level else v.Shown(s) && !v.Takes(a)
  {
    var b := if v.NxmMirror? then NXM else if v.TimerLatch? then 4 + v.n else 8 + v.n;
    match a
    case CasWrite(w) => WriteBits(s.misc, w, b);
    case CasNxm(src) => NxmBits(s.misc, src, b);
    case _ =>
  }

  lemma {:induction false} ActsSnoc(log: seq<Commitment>, e: Commitment)
    ensures Acts(log + [e]) == Acts(log) + [e.act]
    decreases log
  {
    if log == [] {
      assert ([e])[1..] == [];
    } else {
      assert (log + [e])[1..] == log[1..] + [e];
      ActsSnoc(log[1..], e);
    }
  }

  lemma ReplaySnoc(s: Shared, log: seq<Commitment>)
    requires log != []
    ensures Replay(s, Acts(log)) == Apply(Replay(s, Acts(log[..|log| - 1])), log[|log| - 1].act)
  {
    var before, e := log[..|log| - 1], log[|log| - 1];
    assert log == before + [e];
    ActsSnoc(before, e);
    ReplayConcat(s, Acts(before), [e.act]);
    ReplayOne(Replay(s, Acts(before)), e.act);
  }

  lemma TakenGrows(v: Watch, log: seq<Commitment>)
    requires log != []
    ensures var e, before := log[|log| - 1], log[..|log| - 1];
            TakenSince(v, log) <==> !IsShow(v, e) && (TakenSince(v, before) || v.Takes(e.act))
  {
    var p := |log| - 1;
    var before := log[..p];
    if !IsShow(v, log[p]) {
      if TakenSince(v, before) {
        var t :| LastShow(v, before) < t < p && v.Takes(before[t].act);
        assert v.Takes(log[t].act);
      }
      if TakenSince(v, log) {
        var t :| LastShow(v, log) < t < |log| && v.Takes(log[t].act);
        if t < p { assert v.Takes(before[t].act); }
      }
    }
  }

  /** The MISC bit is where the last CAS on it left it; its delivery is where the
      last delivery left it, unless a CPU has taken it since. */
  lemma {:induction false} ReplayLevels(v: Watch, s: Shared, log: seq<Commitment>)
    ensures var r, i, k := Replay(s, Acts(log)), LastSet(v, log), LastShow(v, log);
            && v.Source(r) == (if i < 0 then v.Source(s) else v.Sets(log[i].act).level)
            && v.Shown(r) == ((if k < 0 then v.Shown(s) else v.Shows(log[k].act).level) && !TakenSince(v, log))
    decreases |log|
  {
    if log != [] {
      ReplaySnoc(s, log);
      ReplayLevels(v, s, log[..|log| - 1]);
      ApplyLevels(v, Replay(s, Acts(log[..|log| - 1])), log[|log| - 1].act);
      TakenGrows(v, log);
      ShowsTakesApart(v, log[|log| - 1].act);
    }
  }

  lemma ShowsTakesApart(v: Watch, a: Action)
    ensures !(v.Shows(a).To? && v.Takes(a))
  {
  }

  // ---- Every CAS finds its delivery, every delivery its CAS ----

  /** The CAS at c is delivered in the log, or its call still owes. */
  lemma {:induction false} SetIsDelivered(v: Watch, log: seq<Commitment>, c: nat)
    requires LawfulLog(v, log) && c < |log| && IsSet(v, log[c])
    ensures (exists k :: Delivers(v, log, c, k))
            || (Debt(v, log, log[c].agent) == v.Sets(log[c].act) && Untouched(v, log, log[c].agent, c, |log|))
    decreases |log|
  {
    var p := |log| - 1;
    if c < p {
      var before, e, agent := log[..p], log[p], log[c].agent;
      LawfulPrefix(v, log);
      SetIsDelivered(v, before, c);
      if k :| Delivers(v, before, c, k) {
        DeliversGrows(v, log, c, k);
      } else if e.agent == agent && IsShow(v, e) {
        UntouchedGrows(v, log, agent, c);
        assert Delivers(v, log, c, p);
      } else {
        assert Lawful(v, Debt(v, before, e.agent), e.act);
        UntouchedGrows(v, log, agent, c);
      }
    }
  }

  lemma LawfulPrefix(v: Watch, log: seq<Commitment>)
    requires LawfulLog(v, log) && log != []
    ensures LawfulLog(v, log[..|log| - 1])
    ensures Lawful(v, Debt(v, log[..|log| - 1], log[|log| - 1].agent), log[|log| - 1].act)
  {
    var before := log[..|log| - 1];
    forall p | 0 <= p < |before| ensures Lawful(v, Debt(v, before[..p], before[p].agent), before[p].act) {
      assert before[..p] == log[..p];
    }
  }

  lemma DeliversGrows(v: Watch, log: seq<Commitment>, c: int, k: int)
    requires log != [] && Delivers(v, log[..|log| - 1], c, k)
    ensures Delivers(v, log, c, k)
  {
    var before := log[..|log| - 1];
    forall m | c < m < k && 0 <= m < |log| && log[m].agent == log[c].agent
      ensures !IsSet(v, log[m]) && !IsShow(v, log[m])
    {
      assert before[m] == log[m];
    }
  }

  lemma UntouchedGrows(v: Watch, log: seq<Commitment>, agent: nat, c: nat)
    requires log != [] && c < |log| - 1 && Untouched(v, log[..|log| - 1], agent, c, |log| - 1)
    ensures Untouched(v, log, agent, c, |log| - 1)
    ensures log[|log| - 1].agent == agent ==>
              (Untouched(v, log, agent, c, |log|) <==>
               !IsSet(v, log[|log| - 1]) && !IsShow(v, log[|log| - 1]))
    ensures log[|log| - 1].agent != agent ==> Untouched(v, log, agent, c, |log|)
  {
    var before := log[..|log| - 1];
    forall m | c < m < |log| - 1 && log[m].agent == agent ensures !IsSet(v, log[m]) && !IsShow(v, log[m]) {
      assert before[m] == log[m];
    }
  }

  /** A debt comes from a CAS that its agent has not followed up. */
  lemma {:induction false} DebtHasOrigin(v: Watch, log: seq<Commitment>, agent: nat) returns (c: nat)
    requires Debt(v, log, agent).To?
    ensures c < |log| && log[c].agent == agent && v.Sets(log[c].act) == Debt(v, log, agent)
    ensures Untouched(v, log, agent, c, |log|)
    decreases |log|
  {
    var p := |log| - 1;
    if log[p].agent == agent && log[p].act.Cas?() {
      c := p;
    } else {
      c := DebtHasOrigin(v, log[..p], agent);
      assert log[..p][c] == log[c];
      UntouchedGrows(v, log, agent, c);
    }
  }

  /** A delivery carries the level of the CAS it belongs to. */
  lemma ShowHasOrigin(v: Watch, log: seq<Commitment>, k: nat) returns (c: nat)
    requires LawfulLog(v, log) && k < |log| && IsShow(v, log[k])
    ensures Delivers(v, log, c, k) && v.Sets(log[c].act) == v.Shows(log[k].act)
  {
    assert Lawful(v, Debt(v, log[..k], log[k].agent), log[k].act);
    c := DebtHasOrigin(v, log[..k], log[k].agent);
    assert log[..k][c] == log[c];
    forall m | c < m < k && log[m].agent == log[k].agent ensures !IsSet(v, log[m]) && !IsShow(v, log[m]) {
      assert log[..k][m] == log[m];
    }
  }

  lemma OriginUnique(v: Watch, log: seq<Commitment>, c: int, d: int, k: int)
    requires Delivers(v, log, c, k) && Delivers(v, log, d, k)
    ensures c == d
  {
  }

  // ---- Exactly when the two sides part ----

  /** The last call to move the bit was delivered before a call that moved it
      earlier, to the opposite level, and that was the last delivery. */
  ghost predicate OvertakenAt(v: Watch, log: seq<Commitment>, c: int, i: int, j: int, k: int) {
    && c < i && j < k
    && Delivers(v, log, c, k) && Delivers(v, log, i, j)
    && i == LastSet(v, log) && k == LastShow(v, log)
    && v.Sets(log[c].act) != v.Sets(log[i].act)
  }

  ghost predicate OvertakenLast(v: Watch, log: seq<Commitment>) {
    exists c, i, j, k :: OvertakenAt(v, log, c, i, j, k)
  }

  ghost predicate NothingOwed(v: Watch, log: seq<Commitment>) {
    forall agent: nat :: Debt(v, log, agent) == Unset
  }

  /** In a settled lawful log the last levels differ exactly when the last mover
      was overtaken. */
  lemma LastLevels(v: Watch, log: seq<Commitment>)
    requires LawfulLog(v, log) && NothingOwed(v, log)
    ensures LastSet(v, log) < 0 <==> LastShow(v, log) < 0
    ensures LastSet(v, log) >= 0 && LastShow(v, log) >= 0 ==>
              (v.Sets(log[LastSet(v, log)].act) != v.Shows(log[LastShow(v, log)].act) <==> OvertakenLast(v, log))
  {
    var i, k := LastSet(v, log), LastShow(v, log);
    if i >= 0 {
      SetIsDelivered(v, log, i);
      var j :| Delivers(v, log, i, j);
      var c := ShowHasOrigin(v, log, k);
      LastPair(v, log, c, i, j, k);
    } else if k >= 0 {
      var c := ShowHasOrigin(v, log, k);
      assert false;
    }
  }

  lemma LastPair(v: Watch, log: seq<Commitment>, c: nat, i: nat, j: nat, k: nat)
    requires i == LastSet(v, log) && k == LastShow(v, log)
    requires Delivers(v, log, i, j) && Delivers(v, log, c, k) && v.Sets(log[c].act) == v.Shows(log[k].act)
    ensures v.Sets(log[i].act) != v.Shows(log[k].act) <==> OvertakenLast(v, log)
  {
    assert j <= k && c <= i;
    if j == k {
      OriginUnique(v, log, c, i, k);
    } else if v.Sets(log[i].act) != v.Shows(log[k].act) {
      assert OvertakenAt(v, log, c, i, j, k);
    }
    if OvertakenLast(v, log) {
      var c', i', j', k' :| OvertakenAt(v, log, c', i', j', k');
      OriginUnique(v, log, c, c', k);
    }
  }

  /** A delivery of the opposite level after the last mover's own does no harm
      when another call covers it: it takes three calls, so the condition speaks
      of the last delivery and not of any later one. */
  lemma CoveredDelivery(s: Shared)
    ensures var log := [Commitment(1, CasWrite({NXM})), Commitment(2, CasNxm({})), Commitment(0, CasNxm({})),
                        Commitment(0, DrirOr(NXM_LINE)), Commitment(1, DrirAnd(NXM_LINE)),
                        Commitment(2, DrirOr(NXM_LINE))];
            && LastSet(NxmMirror, log) == 2 && Delivers(NxmMirror, log, 2, 3)
            && NxmMirror.Shows(log[4].act) == To(false)
            && Agree(NxmMirror, Replay(s, Acts(log)))
  {
    var log := [Commitment(1, CasWrite({NXM})), Commitment(2, CasNxm({})), Commitment(0, CasNxm({})),
                Commitment(0, DrirOr(NXM_LINE)), Commitment(1, DrirAnd(NXM_LINE)),
                Commitment(2, DrirOr(NXM_LINE))];
    assert IsSet(NxmMirror, log[2]) && IsShow(NxmMirror, log[3]) && IsShow(NxmMirror, log[5]);
    assert !IsSet(NxmMirror, log[3]) && !IsSet(NxmMirror, log[4]) && !IsSet(NxmMirror, log[5]);
    assert LastSet(NxmMirror, log) == 2 && LastShow(NxmMirror, log) == 5;
    ReplayLevels(NxmMirror, s, log);
  }

  // ---- Runs ----

  /** Agents that each run a list of calls. */
  function Start(cpus: int, s: Shared, programs: seq<seq<Op>>): System {
    System(s, seq(|programs|, i requires 0 <= i < |programs| => Agent(Program(cpus, programs[i]), Idle)))
  }

  /** No call is between its CAS and its delivery. */
  ghost predicate Settled(v: Watch, sys: System) {
    forall i | 0 <= i < |sys.agents| :: Owed(v, sys.agents[i].todo) == Unset
  }

  /** The programs still to run are paired, and owe what the log says. */
  ghost predicate Accounted(v: Watch, sys: System, log: seq<Commitment>) {
    && LawfulLog(v, log)
    && (forall i: nat | i < |sys.agents| :: Paired(v, sys.agents[i].todo))
    && (forall i: nat | i < |sys.agents| :: Owed(v, sys.agents[i].todo) == Debt(v, log, i))
    && (forall i: nat | i >= |sys.agents| :: Debt(v, log, i) == Unset)
  }

  lemma DebtSnoc(v: Watch, log: seq<Commitment>, e: Commitment, agent: nat)
    ensures Debt(v, log + [e], agent) ==
            if e.agent != agent then Debt(v, log, agent)
            else if e.act.Cas?() then v.Sets(e.act)
            else if IsShow(v, e) then Unset
            else Debt(v, log, agent)
  {
    assert (log + [e])[..|log|] == log;
  }

  lemma LawfulSnoc(v: Watch, log: seq<Commitment>, e: Commitment)
    requires LawfulLog(v, log) && Lawful(v, Debt(v, log, e.agent), e.act)
    ensures LawfulLog(v, log + [e])
  {
    var all := log + [e];
    forall p | 0 <= p < |all| ensures Lawful(v, Debt(v, all[..p], all[p].agent), all[p].act) {
      assert all[..p] == log[..p];
      if p == |log| { assert log[..p] == log; }
    }
  }

  lemma CommitAccounted(v: Watch, sys: System, i: nat, log: seq<Commitment>)
    requires Accounted(v, sys, log) && Enabled(sys, Commit(i))
    ensures Accounted(v, Next(sys, Commit(i)), log + [Commitment(i, sys.agents[i].todo[0])])
  {
    var e, next := Commitment(i, sys.agents[i].todo[0]), Next(sys, Commit(i));
    LawfulSnoc(v, log, e);
    forall j: nat
      ensures j < |sys.agents| ==> Paired(v, next.agents[j].todo)
      ensures j < |sys.agents| ==> Owed(v, next.agents[j].todo) == Debt(v, log + [e], j)
      ensures j >= |sys.agents| ==> Debt(v, log + [e], j) == Unset
    {
      DebtSnoc(v, log, e, j);
      if j < |sys.agents| {
        assert next.agents[j].todo == if j == i then sys.agents[i].todo[1..] else sys.agents[j].todo;
      }
    }
  }

  lemma {:induction false} RunAccounted(v: Watch, sys: System, steps: seq<Step>, log: seq<Commitment>)
    requires Accounted(v, sys, log) && Valid(sys, steps)
    ensures Accounted(v, Run(sys, steps), log + Committed(sys, steps))
    decreases steps
  {
    if steps == [] {
      assert log + Committed(sys, steps) == log;
    } else {
      var step, next := steps[0], Next(sys, steps[0]);
      var rest := Committed(next, steps[1..]);
      if step.Commit? {
        var e := Commitment(step.i, sys.agents[step.i].todo[0]);
        CommitAccounted(v, sys, step.i, log);
        RunAccounted(v, next, steps[1..], log + [e]);
        assert log + Committed(sys, steps) == log + [e] + rest;
      } else {
        forall j: nat | j < |sys.agents| ensures next.agents[j].todo == sys.agents[j].todo {}
        RunAccounted(v, next, steps[1..], log);
      }
    }
  }

  lemma StartAccounted(v: Watch, cpus: int, s: Shared, programs: seq<seq<Op>>)
    requires forall i | 0 <= i < |programs| :: forall op | op in programs[i] :: v.Together(cpus, op)
    ensures Accounted(v, Start(cpus, s, programs), []) && WellStaged(Start(cpus, s, programs))
  {
    forall i | 0 <= i < |programs| ensures Square(v, Program(cpus, programs[i])) {
      ProgramPaired(v, cpus, programs[i]);
    }
  }

  /** Any number of agents, each running any list of calls, in any interleaving.
      Once no call is between its CAS and its delivery, and no CPU has taken the
      interrupt since the last delivery, the MISC bit and its delivery agree if
      and only if the last call to move the bit was not overtaken: no call that
      moved the bit before it, to the opposite level, delivered last of all.
      Where a CPU has taken the interrupt since, the delivery is down. */
  lemma AgreeIff(v: Watch, cpus: int, s: Shared, programs: seq<seq<Op>>, steps: seq<Step>)
    requires Agree(v, s)
    requires forall i | 0 <= i < |programs| :: forall op | op in programs[i] :: v.Together(cpus, op)
    requires Valid(Start(cpus, s, programs), steps) && Settled(v, Run(Start(cpus, s, programs), steps))
    ensures var sys := Start(cpus, s, programs);
            var r, log := Run(sys, steps).shared, Committed(sys, steps);
            if TakenSince(v, log) then !v.Shown(r) else (Agree(v, r) <==> !OvertakenLast(v, log))
  {
    var sys := Start(cpus, s, programs);
    var log := Committed(sys, steps);
    SettledLog(v, cpus, s, programs, steps);
    Linearizable(sys, steps);
    LastLevels(v, log);
    ReplayLevels(v, s, log);
    if LastSet(v, log) < 0 && OvertakenLast(v, log) {
      assert false;
    }
  }

  lemma SettledLog(v: Watch, cpus: int, s: Shared, programs: seq<seq<Op>>, steps: seq<Step>)
    requires forall i | 0 <= i < |programs| :: forall op | op in programs[i] :: v.Together(cpus, op)
    requires Valid(Start(cpus, s, programs), steps) && Settled(v, Run(Start(cpus, s, programs), steps))
    ensures var log := Committed(Start(cpus, s, programs), steps);
            LawfulLog(v, log) && NothingOwed(v, log) && WellStaged(Start(cpus, s, programs))
  {
    var sys := Start(cpus, s, programs);
    var log := Committed(sys, steps);
    StartAccounted(v, cpus, s, programs);
    RunAccounted(v, sys, steps, []);
    assert [] + log == log;
    var r := Run(sys, steps);
    forall agent: nat ensures Debt(v, log, agent) == Unset {
      if agent < |r.agents| { assert Owed(v, r.agents[agent].todo) == Unset; }
    }
  }

  /** No CAS moves the bit while a call that moved it to the opposite level has
      yet to deliver. */
  ghost predicate Uncrossed(v: Watch, log: seq<Commitment>) {
    forall c, i, k | Delivers(v, log, c, k) && c < i < k && IsSet(v, log[i]) ::
      v.Sets(log[i].act) == v.Sets(log[c].act)
  }

  /** Under that discipline nothing is lost: once no call is between its CAS and
      its delivery, the delivery is up exactly while the MISC bit is up and no
      CPU has taken the interrupt since the last delivery. */
  lemma UncrossedAgree(v: Watch, cpus: int, s: Shared, programs: seq<seq<Op>>, steps: seq<Step>)
    requires Agree(v, s)
    requires forall i | 0 <= i < |programs| :: forall op | op in programs[i] :: v.Together(cpus, op)
    requires Valid(Start(cpus, s, programs), steps) && Settled(v, Run(Start(cpus, s, programs), steps))
    requires Uncrossed(v, Committed(Start(cpus, s, programs), steps))
    ensures var sys := Start(cpus, s, programs);
            var r, log := Run(sys, steps).shared, Committed(sys, steps);
            v.Shown(r) <==> v.Source(r) && !TakenSince(v, log)
  {
    AgreeIff(v, cpus, s, programs, steps);
    NotOvertaken(v, Committed(Start(cpus, s, programs), steps));
  }

  lemma NotOvertaken(v: Watch, log: seq<Commitment>)
    requires Uncrossed(v, log)
    ensures !OvertakenLast(v, log)
  {
    if c, i, j, k :| OvertakenAt(v, log, c, i, j, k) {
      assert Delivers(v, log, c, k) && c < i < k && IsSet(v, log[i]);
    }
  }
}

/** Any number of agents running the Cchip's compare-and-swap loops and the
    atomic updates around them, step by step and in any interleaving
    (chipsetLib/TsunamiCchip.h:642-702, 1252-1440). */
module MiscCas {
  import opened Words
  import opened MiscSpec
  import opened CchipOps

  /** The loop's local variables: the word last read and the word staged from
      it.  compare_exchange_weak compares against the first and stores the
      second. */
  datatype Local = Idle | Staged(seen: Word, next: Word)

  datatype Agent = Agent(todo: seq<Action>, local: Local)

  datatype System = System(shared: Shared, agents: seq<Agent>)

  /** Load enters a CAS loop.  Fail is a failed compare_exchange_weak: it
      refreshes the word read and stages again, and it may happen whether or
      not the word has changed.  Commit is a successful one, or one of the
      atomic updates that need no loop. */
  datatype Step = Load(i: nat) | Fail(i: nat) | Commit(i: nat)

  predicate Enabled(sys: System, step: Step) {
    && step.i < |sys.agents|
    && var a := sys.agents[step.i];
    && a.todo != []
    && match step
       case Load(_) => a.todo[0].Cas?() && a.local.Idle?
       case Fail(_) => a.todo[0].Cas?() && a.local.Staged?
       case Commit(_) => a.todo[0].Cas?() ==> a.local.Staged? && a.local.seen == sys.shared.misc
  }

  function Next(sys: System, step: Step): System
    requires Enabled(sys, step)
  {
    var i, a := step.i, sys.agents[step.i];
    if step.Commit? then
      var shared := if a.todo[0].Cas?() then sys.shared.(misc := a.local.next) else Apply(sys.shared, a.todo[0]);
      System(shared, sys.agents[i := Agent(a.todo[1..], Idle)])
    else
      var staged := Staged(sys.shared.misc, a.todo[0].Stage(sys.shared.misc));
      sys.(agents := sys.agents[i := a.(local := staged)])
  }

  ghost predicate Valid(sys: System, steps: seq<Step>)
    decreases steps
  {
    steps == [] || (Enabled(sys, steps[0]) && Valid(Next(sys, steps[0]), steps[1..]))
  }

  ghost function Run(sys: System, steps: seq<Step>): System
    requires Valid(sys, steps)
    decreases steps
  {
    if steps == [] then sys else Run(Next(sys, steps[0]), steps[1..])
  }

  /** Who committed what, in commit order. */
  datatype Commitment = Commitment(agent: nat, act: Action)

  ghost function Committed(sys: System, steps: seq<Step>): seq<Commitment>
    requires Valid(sys, steps)
    decreases steps
  {
    if steps == [] then []
    else
      var rest := Committed(Next(sys, steps[0]), steps[1..]);
      if steps[0].Commit? then [Commitment(steps[0].i, sys.agents[steps[0].i].todo[0])] + rest else rest
  }

  function Acts(log: seq<Commitment>): seq<Action> {
    if log == [] then [] else [log[0].act] + Acts(log[1..])
  }

  function Mine(i: nat, log: seq<Commitment>): seq<Action> {
    if log == [] then []
    else (if log[0].agent == i then [log[0].act] else []) + Mine(i, log[1..])
  }

  /** No agent is inside a loop with a word staged from anything but the word
      it read. */
  ghost predicate WellStaged(sys: System) {
    forall i | 0 <= i < |sys.agents| ::
      var a := sys.agents[i];
      a.local.Staged? ==> a.todo != [] && a.todo[0].Cas?() && a.local.next == a.todo[0].Stage(a.local.seen)
  }

  lemma StepStaged(sys: System, step: Step)
    requires WellStaged(sys) && Enabled(sys, step)
    ensures WellStaged(Next(sys, step))
    ensures step.Commit? ==> Next(sys, step).shared == Apply(sys.shared, sys.agents[step.i].todo[0])
    ensures !step.Commit? ==> Next(sys, step).shared == sys.shared
  {
  }

  /** Every interleaving is a sequential execution.  The shared state is what
      the committed actions give when they run one at a time in commit order,
      and each agent's committed actions are, in order and once each, exactly
      the part of its program it has finished. */
  lemma {:induction false} Linearizable(sys: System, steps: seq<Step>)
    requires WellStaged(sys) && Valid(sys, steps)
    ensures WellStaged(Run(sys, steps))
    ensures Run(sys, steps).shared == Replay(sys.shared, Acts(Committed(sys, steps)))
    ensures |Run(sys, steps).agents| == |sys.agents|
    ensures forall i | 0 <= i < |sys.agents| ::
              Mine(i, Committed(sys, steps)) + Run(sys, steps).agents[i].todo == sys.agents[i].todo
    decreases steps
  {
    if steps != [] {
      var step, next := steps[0], Next(sys, steps[0]);
      StepStaged(sys, step);
      Linearizable(next, steps[1..]);
      var rest := Committed(next, steps[1..]);
      if step.Commit? {
        ActsCons(Commitment(step.i, sys.agents[step.i].todo[0]), rest);
      }
      forall i | 0 <= i < |sys.agents|
        ensures Mine(i, Committed(sys, steps)) + Run(sys, steps).agents[i].todo == sys.agents[i].todo
      {
        var left := Run(sys, steps).agents[i].todo;
        assert Mine(i, rest) + left == next.agents[i].todo;
        StepTodo(sys, step, i, rest, left);
      }
    }
  }

  lemma ActsCons(c: Commitment, rest: seq<Commitment>)
    ensures Acts([c] + rest) == [c.act] + Acts(rest)
    ensures ([c.act] + Acts(rest))[1..] == Acts(rest)
  {
    assert ([c] + rest)[1..] == rest;
  }

  /** One step moves at most one action from an agent's program to the log. */
  lemma StepTodo(sys: System, step: Step, i: nat, rest: seq<Commitment>, left: seq<Action>)
    requires Enabled(sys, step) && i < |sys.agents|
    requires Mine(i, rest) + left == Next(sys, step).agents[i].todo
    ensures var log := if step.Commit? then [Commitment(step.i, sys.agents[step.i].todo[0])] + rest else rest;
            Mine(i, log) + left == sys.agents[i].todo
  {
    if step.Commit? {
      var c := Commitment(step.i, sys.agents[step.i].todo[0]);
      assert ([c] + rest)[1..] == rest;
      if step.i == i {
        assert Mine(i, [c] + rest) + left == [c.act] + (Mine(i, rest) + left);
      }
    }
  }

  // ---- Progress ----

  /** Left alone, an agent with work left commits within two of its own steps. */
  lemma TwoStepsAlone(sys: System, i: nat)
    requires i < |sys.agents| && sys.agents[i].todo != []
    ensures Enabled(sys, Commit(i))
            || (Enabled(sys, Load(i)) && Enabled(Next(sys, Load(i)), Commit(i)))
            || (Enabled(sys, Fail(i)) && Enabled(Next(sys, Fail(i)), Commit(i)))
  {
  }

  /** The agent's next CAS would succeed. */
  predicate Poised(a: Agent, m: Word) { a.local.Staged? && a.local.seen == m }

  /** The agent's next CAS would fail for cause: the word has changed since. */
  predicate Stale(a: Agent, m: Word) { a.local.Staged? && a.local.seen != m }

  predicate StaleAt(sys: System, i: nat) { i < |sys.agents| && Stale(sys.agents[i], sys.shared.misc) }

  /** The step is a failed CAS that had a cause. */
  predicate Caused(sys: System, step: Step) { step.Fail? && StaleAt(sys, step.i) }

  /** The step swaps the word. */
  predicate Swaps(sys: System, step: Step)
    requires Enabled(sys, step)
  {
    step.Commit? && sys.agents[step.i].todo[0].Cas?()
  }

  function One(b: bool): nat { if b then 1 else 0 }

  /** Agent i's failures for cause. */
  ghost function Failures(sys: System, steps: seq<Step>, i: nat): nat
    requires Valid(sys, steps)
    decreases steps
  {
    if steps == [] then 0
    else One(steps[0].i == i && Caused(sys, steps[0])) + Failures(Next(sys, steps[0]), steps[1..], i)
  }

  /** Words swapped in by agents other than i. */
  ghost function OtherSwaps(sys: System, steps: seq<Step>, i: nat): nat
    requires Valid(sys, steps)
    decreases steps
  {
    if steps == [] then 0
    else One(steps[0].i != i && Swaps(sys, steps[0])) + OtherSwaps(Next(sys, steps[0]), steps[1..], i)
  }

  /** Every failure for cause of an agent is paid for by another agent's
      successful swap. */
  lemma {:induction false} FailuresPaidFor(sys: System, steps: seq<Step>, i: nat)
    requires Valid(sys, steps) && i < |sys.agents|
    ensures Failures(sys, steps, i) + One(StaleAt(Run(sys, steps), i)) <=
            OtherSwaps(sys, steps, i) + One(StaleAt(sys, i))
    decreases steps
  {
    if steps != [] {
      FailuresPaidFor(Next(sys, steps[0]), steps[1..], i);
    }
  }

  /** No CAS in the run fails without cause. */
  ghost predicate Earnest(sys: System, steps: seq<Step>)
    requires Valid(sys, steps)
    decreases steps
  {
    steps == [] || ((steps[0].Fail? ==> Caused(sys, steps[0])) && Earnest(Next(sys, steps[0]), steps[1..]))
  }

  function Commits(steps: seq<Step>): nat {
    if steps == [] then 0 else One(steps[0].Commit?) + Commits(steps[1..])
  }

  /** How many agents are not poised. */
  function Unready(agents: seq<Agent>, m: Word): (r: nat)
    ensures r <= |agents|
  {
    if agents == [] then 0 else One(!Poised(agents[0], m)) + Unready(agents[1..], m)
  }

  lemma {:induction false} UnreadyUpdate(agents: seq<Agent>, m: Word, i: nat, a: Agent)
    requires i < |agents|
    ensures Unready(agents[i := a], m) + One(!Poised(agents[i], m)) == Unready(agents, m) + One(!Poised(a, m))
    decreases agents
  {
    if i == 0 {
      assert agents[i := a][1..] == agents[1..];
    } else {
      assert agents[i := a][1..] == agents[1..][i - 1 := a];
      UnreadyUpdate(agents[1..], m, i - 1, a);
    }
  }

  /** A step that is not a commit, and does not fail without cause, readies one
      more agent. */
  lemma StepReadies(sys: System, step: Step)
    requires Enabled(sys, step) && !step.Commit? && (step.Fail? ==> Caused(sys, step))
    ensures Unready(Next(sys, step).agents, Next(sys, step).shared.misc) + 1 == Unready(sys.agents, sys.shared.misc)
  {
    UnreadyUpdate(sys.agents, sys.shared.misc, step.i, Next(sys, step).agents[step.i]);
  }

  /** Lock freedom over runs: with N agents and no failure without cause, c
      commits need at most N + c * (N + 1) steps of all agents together,
      whatever the interleaving. */
  lemma {:induction false} LockFree(sys: System, steps: seq<Step>)
    requires Valid(sys, steps) && Earnest(sys, steps)
    ensures |steps| <= Unready(sys.agents, sys.shared.misc) + Commits(steps) * (|sys.agents| + 1)
    decreases steps
  {
    if steps != [] {
      var next := Next(sys, steps[0]);
      LockFree(next, steps[1..]);
      if steps[0].Commit? {
        OneMoreTime(Commits(steps[1..]), |sys.agents| + 1);
      } else {
        StepReadies(sys, steps[0]);
      }
    }
  }

  lemma OneMoreTime(c: nat, n: nat)
    ensures (1 + c) * n == n + c * n
  {
  }

  /** So in any N + 1 consecutive steps somebody commits. */
  lemma SomebodyCommits(sys: System, steps: seq<Step>)
    requires Valid(sys, steps) && Earnest(sys, steps) && |steps| > |sys.agents|
    ensures exists k :: 0 <= k < |steps| && steps[k].Commit?
  {
    LockFree(sys, steps);
    CommitsFound(steps);
  }

  lemma {:induction false} CommitsFound(steps: seq<Step>)
    ensures Commits(steps) > 0 ==> exists k :: 0 <= k < |steps| && steps[k].Commit?
    decreases steps
  {
    if steps != [] {
      CommitsFound(steps[1..]);
      if k :| 0 <= k < |steps[1..]| && steps[1..][k].Commit? {
        assert steps[k + 1].Commit?;
      }
    }
  }

  // ---- Schedules in which finished calls leave a bit and its delivery apart ----

  lemma Prepend(sys: System, step: Step, rest: seq<Step>)
    requires Enabled(sys, step) && Valid(Next(sys, step), rest)
    ensures Valid(sys, [step] + rest)
    ensures Run(sys, [step] + rest) == Run(Next(sys, step), rest)
  {
    assert ([step] + rest)[1..] == rest;
  }

  /** The schedule in which agent 1 runs both its actions between agent 0's
      CAS and agent 0's second action. */
  ghost function Overtake(): seq<Step> {
    [Load(0)] + ([Commit(0)] + ([Load(1)] + ([Commit(1)] + ([Commit(1)] + [Commit(0)]))))
  }

  /** The system after agent i has run its next action. */
  function After(sys: System, i: nat): System
    requires i < |sys.agents| && sys.agents[i].todo != []
  {
    var a := sys.agents[i];
    System(Apply(sys.shared, a.todo[0]), sys.agents[i := Agent(a.todo[1..], Idle)])
  }

  /** An undisturbed CAS loop. */
  lemma SwapNext(sys: System, i: nat, rest: seq<Step>)
    requires i < |sys.agents| && sys.agents[i].todo != [] && sys.agents[i].local.Idle?
    requires sys.agents[i].todo[0].Cas?() && Valid(After(sys, i), rest)
    ensures Valid(sys, [Load(i)] + ([Commit(i)] + rest))
    ensures Run(sys, [Load(i)] + ([Commit(i)] + rest)) == Run(After(sys, i), rest)
  {
    var mid := Next(sys, Load(i));
    assert Next(mid, Commit(i)).agents == After(sys, i).agents;
    Prepend(mid, Commit(i), rest);
    Prepend(sys, Load(i), [Commit(i)] + rest);
  }

  lemma StoreNext(sys: System, i: nat, rest: seq<Step>)
    requires i < |sys.agents| && sys.agents[i].todo != [] && sys.agents[i].local.Idle?
    requires !sys.agents[i].todo[0].Cas?() && Valid(After(sys, i), rest)
    ensures Valid(sys, [Commit(i)] + rest)
    ensures Run(sys, [Commit(i)] + rest) == Run(After(sys, i), rest)
  {
    Prepend(sys, Commit(i), rest);
  }

  /** What two calls, each a CAS and a store, leave when the second overtakes
      the first. */
  function Crossed(s: Shared, c0: Action, d0: Action, c1: Action, d1: Action): Shared {
    Apply(Apply(Apply(Apply(s, c0), c1), d1), d0)
  }

  lemma Overtaken(s: Shared, c0: Action, d0: Action, c1: Action, d1: Action)
    requires c0.Cas?() && c1.Cas?() && !d0.Cas?() && !d1.Cas?()
    ensures var sys := System(s, [Agent([c0, d0], Idle), Agent([c1, d1], Idle)]);
            && WellStaged(sys) && Valid(sys, Overtake())
            && Run(sys, Overtake()) == System(Crossed(s, c0, d0, c1, d1), [Agent([], Idle), Agent([], Idle)])
  {
    var sys := System(s, [Agent([c0, d0], Idle), Agent([c1, d1], Idle)]);
    assert [c0, d0][1..] == [d0] && [c1, d1][1..] == [d1] && [d0][1..] == [] && [d1][1..] == [];
    var s1 := After(sys, 0);
    assert s1.agents == [Agent([d0], Idle), Agent([c1, d1], Idle)];
    var s2 := After(s1, 1);
    assert s2.agents == [Agent([d0], Idle), Agent([d1], Idle)];
    var s3 := After(s2, 1);
    assert s3.agents == [Agent([d0], Idle), Agent([], Idle)];
    assert After(s3, 0).agents == [Agent([], Idle), Agent([], Idle)];
    StoreNext(s3, 0, []);
    assert [Commit(0)] + [] == [Commit(0)];
    StoreNext(s2, 1, [Commit(0)]);
    SwapNext(s1, 1, [Commit(1)] + [Commit(0)]);
    SwapNext(sys, 0, [Load(1)] + ([Commit(1)] + ([Commit(1)] + [Commit(0)])));
  }

  /** Both sides can finish and disagree: a latchNxm overtaken between its CAS
      and its DRIR update by a whole clearing write leaves NXM clear and
      DRIR<63> raised. */
  lemma StaleMirror(s: Shared, src: Word)
    ensures var sys := System(s, [Agent(Compile(1, LatchNxm(src)), Idle), Agent(Compile(1, WriteMisc({NXM})), Idle)]);
            && WellStaged(sys) && Valid(sys, Overtake())
            && var r := Run(sys, Overtake());
            && r.agents == [Agent([], Idle), Agent([], Idle)]
            && NXM !in r.shared.misc && NXM_LINE in r.shared.drir
  {
    ClearIsTwoActions();
    Overtaken(s, CasNxm(src), DrirOr(NXM_LINE), CasWrite({NXM}), DrirAnd(NXM_LINE));
    WriteBits(NxmWord(s.misc, src), {NXM}, NXM);
  }

  /** In the other order the error is lost: a write that clears NXM, overtaken
      between its CAS and its DRIR update by a whole latchNxm, leaves NXM up and
      DRIR<63> down. */
  lemma LostNxm(s: Shared, src: Word)
    ensures var sys := System(s, [Agent(Compile(1, WriteMisc({NXM})), Idle), Agent(Compile(1, LatchNxm(src)), Idle)]);
            && WellStaged(sys) && Valid(sys, Overtake())
            && var r := Run(sys, Overtake());
            && r.agents == [Agent([], Idle), Agent([], Idle)]
            && NXM in r.shared.misc && NXM_LINE !in r.shared.drir
  {
    ClearIsTwoActions();
    Overtaken(s, CasWrite({NXM}), DrirAnd(NXM_LINE), CasNxm(src), DrirOr(NXM_LINE));
    CrossedNxm(s, src);
  }

  lemma CrossedNxm(s: Shared, src: Word)
    ensures var r := Crossed(s, CasWrite({NXM}), DrirAnd(NXM_LINE), CasNxm(src), DrirOr(NXM_LINE));
            NXM in r.misc && NXM_LINE !in r.drir
  {
    NxmBits(WriteWord(s.misc, {NXM}), src, NXM);
  }

  /** The other race loses a tick: a write that acknowledges CPU 0's timer,
      overtaken between its CAS and its latch clear by a whole timer fire,
      leaves ITINTR raised and the latch that delivers it down. */
  lemma LostTick(s: Shared)
    ensures var sys := System(s, [Agent(Compile(1, WriteMisc({4})), Idle), Agent(Compile(1, FireTimer), Idle)]);
            && WellStaged(sys) && Valid(sys, Overtake())
            && var r := Run(sys, Overtake());
            && r.agents == [Agent([], Idle), Agent([], Idle)]
            && 4 in r.shared.misc && !r.shared.irq2[0]
  {
    TickIsTwoActions();
    Overtaken(s, CasWrite({4}), Irq2(0, false), CasTimer(0), Irq2(0, true));
  }

  /** And one loses an interprocessor interrupt: a write that acknowledges CPU
      0's IPI, overtaken between its CAS and its latch clear by a whole new
      request, leaves IPINTR raised and the latch down. */
  lemma LostIpi(s: Shared)
    ensures var sys := System(s, [Agent(Compile(1, WriteMisc({8})), Idle), Agent(Compile(1, WriteMisc({12})), Idle)]);
            && WellStaged(sys) && Valid(sys, Overtake())
            && var r := Run(sys, Overtake());
            && r.agents == [Agent([], Idle), Agent([], Idle)]
            && 8 in r.shared.misc && !r.shared.irq3[0]
  {
    IpiIsTwoActions();
    Overtaken(s, CasWrite({8}), Irq3(0, false), CasWrite({12}), Irq3(0, true));
    CrossedIpi(s);
  }

  lemma CrossedIpi(s: Shared)
    ensures var r := Crossed(s, CasWrite({8}), Irq3(0, false), CasWrite({12}), Irq3(0, true));
            8 in r.misc && !r.irq3[0]
  {
    WriteBits(WriteWord(s.misc, {8}), {12}, 8);
  }

  lemma IpiIsTwoActions()
    ensures Compile(1, WriteMisc({8})) == [CasWrite({8}), Irq3(0, false)]
    ensures Compile(1, WriteMisc({12})) == [CasWrite({12}), Irq3(0, true)]
  {
    var w: Word := {8};
    var x: Word := {12};
    assert ClearTimerActions(w, 4) == [] && ClearTimerActions(w, 2) == [] && ClearTimerActions(w, 0) == [];
    assert ClearTimerActions(x, 4) == [] && ClearTimerActions(x, 2) == [] && ClearTimerActions(x, 0) == [];
    assert ClearIpiActions(w, 4) == [] && ClearIpiActions(w, 2) == [] && ClearIpiActions(w, 1) == [];
    assert ClearIpiActions(x, 4) == [] && ClearIpiActions(x, 2) == [] && ClearIpiActions(x, 0) == [];
    assert RaiseIpiActions(1, w, 1) == [] && RaiseIpiActions(1, x, 1) == [];
  }

  lemma TickIsTwoActions()
    ensures Compile(1, WriteMisc({4})) == [CasWrite({4}), Irq2(0, false)]
    ensures Compile(1, FireTimer) == [CasTimer(0), Irq2(0, true)]
  {
    var w: Word := {4};
    assert ClearTimerActions(w, 4) == [] && ClearTimerActions(w, 3) == [] && ClearTimerActions(w, 2) == [];
    assert ClearTimerActions(w, 1) == [];
    assert ClearIpiActions(w, 4) == [] && ClearIpiActions(w, 3) == [] && ClearIpiActions(w, 2) == [];
    assert ClearIpiActions(w, 0) == [];
    assert RaiseIpiActions(1, w, 1) == [] && RaiseIpiActions(1, w, 0) == [];
    assert TimerActions(1, 1) == [];
  }

  lemma ClearIsTwoActions()
    ensures Compile(1, WriteMisc({NXM})) == [CasWrite({NXM}), DrirAnd(NXM_LINE)]
  {
    var w: Word := {NXM};
    assert ClearTimerActions(w, 4) == [] && ClearTimerActions(w, 3) == [] && ClearTimerActions(w, 2) == [];
    assert ClearIpiActions(w, 4) == [] && ClearIpiActions(w, 3) == [] && ClearIpiActions(w, 2) == [];
    assert ClearTimerActions(w, 0) == [] && ClearIpiActions(w, 0) == [];
    assert RaiseIpiActions(1, w, 1) == [] && RaiseIpiActions(1, w, 0) == [];
  }
}

/** What holds in every run of completed Cchip calls, and what holds at every
    instant of every interleaving (chipsetLib/TsunamiCchip.h). */
module CchipRuns {
  import opened Words
  import opened MiscSpec
  import opened CchipOps
  import MiscCas

  function RunOps(cpus: int, s: Shared, ops: seq<Op>): Shared
    decreases ops
  {
    if ops == [] then s else RunOps(cpus, Perform(cpus, s, ops[0]), ops[1..])
  }

  lemma {:induction false} RunSnoc(cpus: int, s: Shared, ops: seq<Op>)
    requires ops != []
    ensures RunOps(cpus, s, ops) ==
            Perform(cpus, RunOps(cpus, s, ops[..|ops| - 1]), ops[|ops| - 1])
    decreases ops
  {
    if |ops| > 1 {
      RunSnoc(cpus, Perform(cpus, s, ops[0]), ops[1..]);
      assert ops[..|ops| - 1][1..] == ops[1..][..|ops| - 2];
    }
  }

  /** The state before op number i of a run. */
  function Before(cpus: int, s: Shared, ops: seq<Op>, i: nat): Shared
    requires i <= |ops|
  {
    RunOps(cpus, s, ops[..i])
  }

  lemma BeforeNext(cpus: int, s: Shared, ops: seq<Op>, i: nat)
    requires i < |ops|
    ensures Before(cpus, s, ops, i + 1) == Perform(cpus, Before(cpus, s, ops, i), ops[i])
  {
    RunSnoc(cpus, s, ops[..i + 1]);
    assert ops[..i + 1][..i] == ops[..i];
  }

  /** State after reset(): MISC holds the chip revision and nothing else. */
  function ResetState(rev: Byte): Shared {
    Shared(Shl(rev, 32), {}, NO_LATCH, NO_LATCH)
  }

  // ---- The invariant of completed calls ----

  ghost predicate Inv(cpus: int, rev: Word, s: Shared) {
    && s.misc * UNSTORED == {}
    && s.misc * REV == rev
    && (NXM in s.misc <==> NXM_LINE in s.drir)
    && (forall n: Cpu :: s.irq2[n] ==> n < cpus && 4 + n in s.misc)
    && (forall n: Cpu :: s.irq3[n] ==> n < cpus && 8 + n in s.misc)
  }

  /** Device models keep off the NXM mirror. */
  predicate KeepsOffMirror(op: Op) {
    (op.Assert? || op.Deassert?) ==> op.line != NXM_LINE
  }

  lemma ResetInv(cpus: int, rev: Byte)
    ensures Inv(cpus, Shl(rev, 32), ResetState(rev))
  {
    var m := Shl(rev, 32);
    assert forall b :: b in m ==> 32 <= b < 40;
    assert m * REV == m;
    assert m * UNSTORED == {};
  }

  /** No CAS moves a bit that is not stored, or the revision. */
  lemma StageKeeps(m: Word, a: Action)
    requires a.Cas?()
    ensures a.Stage(m) * REV == m * REV
    ensures m * UNSTORED == {} ==> a.Stage(m) * UNSTORED == {}
  {
    forall b: nat
      ensures b in REV ==> (b in a.Stage(m) <==> b in m)
      ensures b in UNSTORED ==> (b in a.Stage(m) <==> b in m)
    {
      match a
      case CasWrite(w) => WriteBits(m, w, b);
      case CasNxm(src) => NxmBits(m, src, b);
      case CasTimer(n) =>
    }
  }

  lemma PerformWriteInv(cpus: int, rev: Word, s: Shared, w: Word)
    requires Inv(cpus, rev, s)
    ensures Inv(cpus, rev, Perform(cpus, s, WriteMisc(w)))
  {
    StageKeeps(s.misc, CasWrite(w));
    WriteBits(s.misc, w, NXM);
    forall b: nat
      ensures b in ITINTR ==> (b in WriteWord(s.misc, w) <==> b in s.misc && b !in w)
      ensures b in IPINTR ==>
                (b in WriteWord(s.misc, w) <==> (b in s.misc && b !in w) || b + 4 in w)
    {
      WriteBits(s.misc, w, b);
    }
  }

  lemma PerformInv(cpus: int, rev: Word, s: Shared, op: Op)
    requires Inv(cpus, rev, s) && KeepsOffMirror(op)
    ensures Inv(cpus, rev, Perform(cpus, s, op))
  {
    match op
    case WriteMisc(w) => PerformWriteInv(cpus, rev, s, w);
    case LatchNxm(src) =>
      StageKeeps(s.misc, CasNxm(src));
      NxmBits(s.misc, src, NXM);
      forall b: nat ensures b in ITINTR + IPINTR ==> (b in NxmWord(s.misc, src) <==> b in s.misc) {
        NxmBits(s.misc, src, b);
      }
    case FireTimer =>
      var r := Perform(cpus, s, op);
      assert r.misc * REV == s.misc * REV;
      assert r.misc * UNSTORED == s.misc * UNSTORED;
    case _ =>
  }

  /** In every run of completed calls from reset: MISC<NXM> equals DRIR<63>,
      the revision never changes, the WO, CPUID and reserved bits stay clear,
      a raised latch has its MISC bit raised, and no latch is ever raised for
      a CPU that is not configured. */
  lemma {:induction false} RunInv(cpus: int, rev: Word, s: Shared, ops: seq<Op>)
    requires Inv(cpus, rev, s) && forall op | op in ops :: KeepsOffMirror(op)
    ensures Inv(cpus, rev, RunOps(cpus, s, ops))
    decreases ops
  {
    if ops != [] {
      PerformInv(cpus, rev, s, ops[0]);
      RunInv(cpus, rev, Perform(cpus, s, ops[0]), ops[1..]);
    }
  }

  /** The same for the revision and the unstored bits at every instant of every
      interleaving of any number of agents. */
  lemma InterleavedMisc(sys: MiscCas.System, steps: seq<MiscCas.Step>)
    requires MiscCas.WellStaged(sys) && MiscCas.Valid(sys, steps)
    requires sys.shared.misc * UNSTORED == {}
    ensures MiscCas.Run(sys, steps).shared.misc * REV == sys.shared.misc * REV
    ensures MiscCas.Run(sys, steps).shared.misc * UNSTORED == {}
  {
    MiscCas.Linearizable(sys, steps);
    ReplayKeeps(sys.shared, MiscCas.Acts(MiscCas.Committed(sys, steps)));
  }

  lemma {:induction false} ReplayKeeps(s: Shared, acts: seq<Action>)
    requires s.misc * UNSTORED == {}
    ensures Replay(s, acts).misc * REV == s.misc * REV
    ensures Replay(s, acts).misc * UNSTORED == {}
    decreases acts
  {
    if acts != [] {
      if acts[0].Cas?() {
        StageKeeps(s.misc, acts[0]);
      }
      ReplayKeeps(Apply(s, acts[0]), acts[1..]);
    }
  }

  // ---- The interval timer ----

  /** Every configured CPU has its timer bit and latch raised, and nothing else of
      the interrupt state has moved. */
  ghost predicate Ticked(cpus: int, before: Shared, after: Shared) {
    && (forall b: nat :: b in after.misc <==> b in before.misc || (4 <= b < 8 && b - 4 < cpus))
    && (forall n: Cpu :: after.irq2[n] <==> before.irq2[n] || n < cpus)
    && after.drir == before.drir && after.irq3 == before.irq3
  }

  lemma FireTicks(cpus: int, s: Shared)
    ensures Ticked(cpus, s, Perform(cpus, s, FireTimer))
  {
  }

  // ---- Device lines and takes ----

  /** A device call moves its own line and nothing else; a take drops its own
      latch and nothing else. */
  lemma CallsMove(cpus: int, s: Shared, line: Line, b: Line, n: Cpu, k: Cpu)
    ensures var r := Perform(cpus, s, Assert(line));
            (b in r.drir <==> b == line || b in s.drir) && r == s.(drir := r.drir)
    ensures var r := Perform(cpus, s, Deassert(line));
            (b in r.drir <==> b != line && b in s.drir) && r == s.(drir := r.drir)
    ensures var r := Perform(cpus, s, AckTimer(n));
            (r.irq2[k] <==> k != n && s.irq2[k]) && r == s.(irq2 := r.irq2)
    ensures var r := Perform(cpus, s, AckIpi(n));
            (r.irq3[k] <==> k != n && s.irq3[k]) && r == s.(irq3 := r.irq3)
  {
  }

  // ---- Interprocessor interrupts ----

  /** IPINTR is raised for CPU n and no latch delivers it. */
  predicate IpiUndelivered(s: Shared, n: Cpu) { 8 + n in s.misc && !s.irq3[n] }

  /** The write requests CPU n's interrupt and cannot deliver it: it also
      acknowledges it, or the CPU is not configured. */
  predicate RequestsInVain(cpus: int, op: Op, n: Cpu) {
    op.WriteMisc? && 12 + n in op.w && (8 + n in op.w || n >= cpus)
  }

  /** The write brings both sides to the same level. */
  predicate Settles(cpus: int, op: Op, n: Cpu) {
    op.WriteMisc? && (12 + n in op.w || 8 + n in op.w) && !RequestsInVain(cpus, op, n)
  }

  /** Whatever came before, a request is stored; it is latched if and only if it
      is not acknowledged in the same write and the CPU is configured (or its
      latch was up already). */
  lemma RequestLatchedIff(cpus: int, s: Shared, w: Word, n: Cpu)
    requires 12 + n in w
    ensures var r := Perform(cpus, s, WriteMisc(w));
            8 + n in r.misc && (r.irq3[n] <==> (n < cpus || s.irq3[n]) && 8 + n !in w)
  {
    WriteBits(s.misc, w, 8 + n);
  }

  /** One completed write that carries IPREQ and IPINTR for CPU 0 raises the
      interrupt and drops its latch. */
  lemma RequestCancelled(s: Shared)
    ensures IpiUndelivered(Perform(1, s, WriteMisc({8, 12})), 0)
  {
    RequestLatchedIff(1, s, {8, 12}, 0);
  }

  lemma PerformIpi(cpus: int, rev: Word, s: Shared, op: Op, n: Cpu)
    requires Inv(cpus, rev, s)
    ensures IpiUndelivered(Perform(cpus, s, op), n) <==>
            if RequestsInVain(cpus, op, n) then true
            else if Settles(cpus, op, n) then false
            else if op == AckIpi(n) then 8 + n in s.misc
            else IpiUndelivered(s, n)
  {
    match op
    case WriteMisc(w) => WriteBits(s.misc, w, 8 + n);
    case LatchNxm(src) => NxmBits(s.misc, src, 8 + n);
    case _ =>
  }

  /** Call number j leaves CPU n's interrupt raised without a latch: it requests
      in vain, or the CPU takes an interrupt that is raised. */
  predicate Strands(cpus: int, s: Shared, ops: seq<Op>, j: nat, n: Cpu)
    requires j < |ops|
  {
    RequestsInVain(cpus, ops[j], n) || (ops[j] == AckIpi(n) && 8 + n in Before(cpus, s, ops, j).misc)
  }

  /** Some call before k stranded it, and no later write settled it. */
  ghost predicate Stranded(cpus: int, s: Shared, ops: seq<Op>, n: Cpu, k: nat)
    requires k <= |ops|
  {
    exists j :: 0 <= j < k && Strands(cpus, s, ops, j, n) && forall m | j < m < k :: !Settles(cpus, ops[m], n)
  }

  /** In every run of completed calls, an IPI is raised without its latch if and
      only if some call stranded it and no later write brought both sides to the
      same level. */
  lemma {:induction false} IpiUndeliveredIff(cpus: int, rev: Word, s: Shared, ops: seq<Op>, n: Cpu, k: nat)
    requires Inv(cpus, rev, s) && !IpiUndelivered(s, n) && k <= |ops|
    requires forall op | op in ops :: KeepsOffMirror(op)
    ensures IpiUndelivered(Before(cpus, s, ops, k), n) <==> Stranded(cpus, s, ops, n, k)
    decreases k
  {
    if k > 0 {
      var p := k - 1;
      IpiUndeliveredIff(cpus, rev, s, ops, n, p);
      BeforeNext(cpus, s, ops, p);
      RunInv(cpus, rev, s, ops[..p]);
      PerformIpi(cpus, rev, Before(cpus, s, ops, p), ops[p], n);
      StrandedGrows(cpus, s, ops, n, p);
    }
  }

  lemma StrandedGrows(cpus: int, s: Shared, ops: seq<Op>, n: Cpu, p: nat)
    requires p < |ops|
    ensures Stranded(cpus, s, ops, n, p + 1) <==>
            Strands(cpus, s, ops, p, n) || (Stranded(cpus, s, ops, n, p) && !Settles(cpus, ops[p], n))
  {
    if Stranded(cpus, s, ops, n, p) && !Settles(cpus, ops[p], n) {
      var j :| 0 <= j < p && Strands(cpus, s, ops, j, n) && forall m | j < m < p :: !Settles(cpus, ops[m], n);
      assert forall m | j < m < p + 1 :: !Settles(cpus, ops[m], n);
    }
    if Stranded(cpus, s, ops, n, p + 1) {
      var j :| 0 <= j < p + 1 && Strands(cpus, s, ops, j, n) && forall m | j < m < p + 1 :: !Settles(cpus, ops[m], n);
      if j < p { assert forall m | j < m < p :: !Settles(cpus, ops[m], n); }
    }
  }

  // ---- The error interrupt ----

  /** b_irq<0>: an error-class line <63:58> is raised and unmasked. */
  ghost predicate ErrorPending(drir: Word, dim: Word) {
    exists line :: 58 <= line < 64 && line in drir && line in dim
  }

  /** No device raises an error-class line. */
  predicate KeepsOffErrors(op: Op) {
    (op.Assert? || op.Deassert?) ==> op.line < 58
  }

  lemma {:induction false} NoOtherError(cpus: int, s: Shared, ops: seq<Op>)
    requires s.drir * Field(58, 5) == {} && forall op | op in ops :: KeepsOffErrors(op)
    ensures RunOps(cpus, s, ops).drir * Field(58, 5) == {}
    decreases ops
  {
    if ops != [] {
      var next := Perform(cpus, s, ops[0]);
      assert KeepsOffErrors(ops[0]);
      assert forall b :: b in next.drir * Field(58, 5) ==> b in s.drir * Field(58, 5);
      NoOtherError(cpus, next, ops[1..]);
    }
  }

  /** In every run of completed calls, a CPU sees b_irq<0> exactly while NXM is
      latched and its mask admits line 63. */
  lemma NxmReachesCpu(cpus: int, rev: Word, s: Shared, ops: seq<Op>, dim: Word)
    requires Inv(cpus, rev, s) && s.drir * Field(58, 5) == {}
    requires forall op | op in ops :: KeepsOffErrors(op)
    ensures var r := RunOps(cpus, s, ops);
            ErrorPending(r.drir, dim) <==> NXM in r.misc && NXM_LINE in dim
  {
    var r := RunOps(cpus, s, ops);
    assert forall op | op in ops :: KeepsOffMirror(op) by {
      assert forall op | op in ops :: KeepsOffErrors(op);
    }
    RunInv(cpus, rev, s, ops);
    NoOtherError(cpus, s, ops);
    var others := r.drir * Field(58, 5);
    forall line | 58 <= line < 64 && line in r.drir ensures line == NXM_LINE {
      assert line in others || line == NXM_LINE;
    }
  }

  // ---- The NXM source ----

  /** The call raises NXM from 0. */
  predicate Raises(s: Shared, op: Op) {
    op.LatchNxm? && NXM !in s.misc
  }

  lemma PerformNxs(cpus: int, s: Shared, op: Op)
    ensures NxsOf(Perform(cpus, s, op).misc) ==
            if Raises(s, op) then op.src * LowMask(3) else NxsOf(s.misc)
  {
    var m := Perform(cpus, s, op).misc;
    forall b ensures b + 29 in m * NXS <==>
                     if Raises(s, op) then b in op.src * LowMask(3) else b + 29 in s.misc * NXS
    {
      if b >= 0 {
        match op
        case WriteMisc(w) => WriteBits(s.misc, w, b + 29);
        case LatchNxm(src) => NxmBits(s.misc, src, b + 29);
        case _ =>
      }
    }
  }

  /** NXS holds the source of the latch that last raised NXM from 0. */
  lemma {:induction false} NxsIsLastRaise(cpus: int, s: Shared, ops: seq<Op>, i: nat, k: nat)
    requires i < k <= |ops| && Raises(Before(cpus, s, ops, i), ops[i])
    requires forall j | i < j < k :: !Raises(Before(cpus, s, ops, j), ops[j])
    ensures NxsOf(Before(cpus, s, ops, k).misc) == ops[i].src * LowMask(3)
    decreases k
  {
    BeforeNext(cpus, s, ops, k - 1);
    PerformNxs(cpus, Before(cpus, s, ops, k - 1), ops[k - 1]);
    if i < k - 1 {
      NxsIsLastRaise(cpus, s, ops, i, k - 1);
    }
  }

  /** TsunamiChipset::reportNxm skips the latch while NXM is up. */
  function ReportNxm(s: Shared, src: Word): Shared {
    if NXM in s.misc then s else Perform(0, s, LatchNxm(src))
  }

  /** In every state, the short form and the full latch leave the same state if
      and only if an NXM that is up has its mirror up. */
  lemma ReportIsLatchIff(cpus: int, s: Shared, src: Word)
    ensures ReportNxm(s, src) == Perform(cpus, s, LatchNxm(src)) <==> (NXM in s.misc ==> NXM_LINE in s.drir)
  {
    if NXM in s.misc {
      assert NxmWord(s.misc, src) == s.misc;
      if NXM_LINE in s.drir { assert s.drir + {NXM_LINE} == s.drir; }
    }
  }
}

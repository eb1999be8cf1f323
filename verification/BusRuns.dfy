/** Whole runs of the machine's bus: loads, stores, step boundaries, time and the
    CPUs' interrupt takes (chipsetLib/TsunamiChipset.cpp,
    chipsetLib/TsunamiChipset.h). */
module BusRuns {
  import opened Words
  import opened Arithmetic
  import opened Numbers
  import opened MiscSpec
  import opened Aar
  import opened Mmio
  import opened Chipset
  import opened GlueRuns
  import opened Bus
  import opened History

  datatype Step =
    | Load(pa: nat, width: nat, d: Devices)
    | Store(pa: nat, width: nat, v: Quad)
    | Evaluate(d: Devices)
    | Pass(cycles: Quad)
    | TakeTimer(n: Cpu)
    | TakeIpi(n: Cpu)

  function WithGlue(b: State, g: Glue): State { b.(io := b.io.(glue := g)) }

  ghost function Next(cfg: Config, b: State, step: Step): State
    requires cfg.Valid()
  {
    match step
    case Load(pa, width, d) => ReadSpec(cfg, b, pa, width, d).0
    case Store(pa, width, v) => WriteSpec(cfg, b, pa, v, width).0
    case Evaluate(d) => WithGlue(b, Take(cfg, b.io.glue, Evaluated(d)))
    case Pass(cycles) => WithGlue(b, Take(cfg, b.io.glue, Passed(cycles)))
    case TakeTimer(n) => WithGlue(b, Take(cfg, b.io.glue, TookTimer(n)))
    case TakeIpi(n) => WithGlue(b, Take(cfg, b.io.glue, TookIpi(n)))
  }

  /** The state before step number k. */
  ghost function At(cfg: Config, b: State, steps: seq<Step>, k: nat): State
    requires cfg.Valid() && k <= |steps|
  {
    if k == 0 then b else Next(cfg, At(cfg, b, steps, k - 1), steps[k - 1])
  }

  // ---- What a step does to the glue ----

  /** Under these array registers the access is below the I/O space and in no
      window, and gets as far as the ladder. */
  ghost predicate Unclaimed(aars: seq<Register>, step: Step) {
    match step
    case Load(pa, _, _) => pa < MMIO_START && !IsDram(aars, pa)
    case Store(pa, width, _) => pa < MMIO_START && !IsDram(aars, pa) && LegalWidth(width)
    case _ => false
  }

  /** The step is a store that clears NXM. */
  predicate Clears(step: Step) {
    step.Store? && LegalWidth(step.width) && ToMisc(step.pa) && NXM in Bits(step.v)
  }

  ghost function EffectOf(cfg: Config, b: State, step: Step): Effect
    requires cfg.Valid()
  {
    match step
    case Load(pa, width, d) =>
      if Unclaimed(b.Aars(), step) then Reported
      else if pa == MMIO_START + IACK then Acknowledged(d)
      else PicOnly(Next(cfg, b, step).io.glue.pic)
    case Store(pa, width, v) =>
      if Unclaimed(b.Aars(), step) then Reported
      else if LegalWidth(width) && ToMisc(pa) then Wrote(Bits(v))
      else PicOnly(Next(cfg, b, step).io.glue.pic)
    case Evaluate(d) => Evaluated(d)
    case Pass(cycles) => Passed(cycles)
    case TakeTimer(n) => TookTimer(n)
    case TakeIpi(n) => TookIpi(n)
  }

  lemma LoadEffect(cfg: Config, b: State, pa: nat, width: nat, d: Devices)
    requires cfg.Valid()
    ensures var step := Load(pa, width, d);
            Next(cfg, b, step).io.glue == Take(cfg, b.io.glue, EffectOf(cfg, b, step))
  {
    if IsDram(b.Aars(), pa) { DramBelowMmio(b.Aars(), pa); }
    if Decode(b.Aars(), pa).Mmio? { LoadMoves(cfg, b.io, pa, d); }
  }

  lemma StoreEffect(cfg: Config, b: State, pa: nat, width: nat, v: Quad)
    requires cfg.Valid()
    ensures var step := Store(pa, width, v);
            Next(cfg, b, step).io.glue == Take(cfg, b.io.glue, EffectOf(cfg, b, step))
  {
    if IsDram(b.Aars(), pa) { DramBelowMmio(b.Aars(), pa); }
    if LegalWidth(width) && Decode(b.Aars(), pa).Mmio? {
      StoreIoEffect(cfg, b, pa, width, v);
    }
  }

  lemma StoreIoEffect(cfg: Config, b: State, pa: nat, width: nat, v: Quad)
    requires cfg.Valid() && LegalWidth(width) && Decode(b.Aars(), pa).Mmio?
    ensures var step := Store(pa, width, v);
            Next(cfg, b, step).io.glue == Take(cfg, b.io.glue, EffectOf(cfg, b, step))
  {
    StoreMoves(cfg, b.io, pa, v);
  }

  /** Every step reaches the glue by exactly one effect: an access by a report if
      it is unclaimed, by a MISC write or an acknowledge if it goes there, and
      otherwise by way of the PIC's ports at most. */
  lemma StepEffect(cfg: Config, b: State, step: Step)
    requires cfg.Valid()
    ensures Next(cfg, b, step).io.glue == Take(cfg, b.io.glue, EffectOf(cfg, b, step))
    ensures EffectOf(cfg, b, step).Reported? <==> Unclaimed(b.Aars(), step)
    ensures Clears(step) <==> EffectOf(cfg, b, step).Wrote? && NXM in EffectOf(cfg, b, step).w
  {
    match step
    case Load(pa, width, d) => LoadEffect(cfg, b, pa, width, d);
    case Store(pa, width, v) => StoreEffect(cfg, b, pa, width, v);
    case _ =>
  }

  // ---- NXM over runs ----

  ghost predicate NxmUp(b: State) { NXM in b.io.glue.cchip.misc }

  lemma NxmStep(cfg: Config, b: State, step: Step)
    requires cfg.Valid()
    ensures NxmUp(Next(cfg, b, step)) <==> Unclaimed(b.Aars(), step) || (NxmUp(b) && !Clears(step))
  {
    StepEffect(cfg, b, step);
    EffectNxm(cfg, b.io.glue, EffectOf(cfg, b, step));
  }

  /** Which steps of a run were unclaimed under the array registers of their own
      moment, and which clear NXM. */
  ghost function Misses(cfg: Config, b: State, steps: seq<Step>): nat -> bool
    requires cfg.Valid()
  {
    (j: nat) => j < |steps| && Unclaimed(At(cfg, b, steps, j).Aars(), steps[j])
  }

  ghost function Clearings(steps: seq<Step>): nat -> bool {
    (m: nat) => m < |steps| && Clears(steps[m])
  }

  ghost function Levels(cfg: Config, b: State, steps: seq<Step>): nat -> bool
    requires cfg.Valid()
  {
    (k: nat) => k <= |steps| && NxmUp(At(cfg, b, steps, k))
  }

  lemma NxmStepAt(cfg: Config, b: State, steps: seq<Step>, k: nat)
    requires cfg.Valid() && k < |steps|
    ensures Levels(cfg, b, steps)(k + 1) <==>
            Misses(cfg, b, steps)(k) || (Levels(cfg, b, steps)(k) && !Clearings(steps)(k))
  {
    NxmStep(cfg, At(cfg, b, steps, k), steps[k]);
  }

  lemma EveryStep(cfg: Config, b: State, steps: seq<Step>, k: nat)
    requires cfg.Valid() && k <= |steps|
    ensures Follows(Levels(cfg, b, steps), Misses(cfg, b, steps), Clearings(steps), k)
  {
    forall i: nat | i < k
      ensures Levels(cfg, b, steps)(i + 1) <==>
              Misses(cfg, b, steps)(i) || (Levels(cfg, b, steps)(i) && !Clearings(steps)(i))
    {
      NxmStepAt(cfg, b, steps, i);
    }
  }

  lemma LevelAt(cfg: Config, b: State, steps: seq<Step>, k: nat)
    requires cfg.Valid() && k <= |steps|
    ensures Levels(cfg, b, steps)(k) <==> NxmUp(At(cfg, b, steps, k))
  {
  }

  /** At every point of every run, NXM is up if and only if some access that was
      unclaimed under the array registers of its own moment has come after the
      last store that clears NXM, or NXM was up at the start and none has
      cleared it. */
  lemma NxmUpIff(cfg: Config, b: State, steps: seq<Step>, k: nat)
    requires cfg.Valid() && k <= |steps|
    ensures NxmUp(At(cfg, b, steps, k)) <==> Up(NxmUp(b), Misses(cfg, b, steps), Clearings(steps), k)
  {
    EveryStep(cfg, b, steps, k);
    LevelAt(cfg, b, steps, k);
    LevelAt(cfg, b, steps, 0);
    EndsUp(Levels(cfg, b, steps), Misses(cfg, b, steps), Clearings(steps), k, NxmUp(b), NxmUp(At(cfg, b, steps, k)));
  }

  lemma StepInvariant(cfg: Config, rev: Word, b: State, step: Step)
    requires cfg.Valid() && cfg.iic != BRIDGE_LINE && RunInvariant(cfg, rev, b.io.glue)
    ensures RunInvariant(cfg, rev, Next(cfg, b, step).io.glue)
  {
    StepEffect(cfg, b, step);
    EffectInvariant(cfg, rev, b.io.glue, EffectOf(cfg, b, step));
  }

  /** At every point of every run of bus accesses, step boundaries, time and
      takes: NXM equals DRIR<63>, the other Cchip invariants hold, and DRIR<55>
      equals the cached PIC level. */
  lemma {:induction false} RunKeepsInvariant(cfg: Config, rev: Word, b: State, steps: seq<Step>, k: nat)
    requires cfg.Valid() && cfg.iic != BRIDGE_LINE && RunInvariant(cfg, rev, b.io.glue) && k <= |steps|
    ensures RunInvariant(cfg, rev, At(cfg, b, steps, k).io.glue)
    decreases k
  {
    if k > 0 {
      RunKeepsInvariant(cfg, rev, b, steps, k - 1);
      StepInvariant(cfg, rev, At(cfg, b, steps, k - 1), steps[k - 1]);
    }
  }

  lemma StepMuted(cfg: Config, b: State, step: Step)
    requires cfg.Valid() && Muted(b.io.glue) && !Clears(step)
    ensures Muted(Next(cfg, b, step).io.glue)
  {
    StepEffect(cfg, b, step);
    EffectMuted(cfg, b.io.glue, EffectOf(cfg, b, step));
  }

  /** A lost mirror stays lost.  From a state in which NXM is up and DRIR<63> is
      down, whatever is accessed, every report is absorbed and the error line
      stays down until a store clears NXM. */
  lemma {:induction false} MutedUntilCleared(cfg: Config, b: State, steps: seq<Step>, k: nat)
    requires cfg.Valid() && Muted(b.io.glue) && k <= |steps| && Quiet(Clearings(steps), 0, k)
    ensures Muted(At(cfg, b, steps, k).io.glue)
    decreases k
  {
    if k > 0 {
      var before := At(cfg, b, steps, k - 1);
      QuietGrows(Clearings(steps), 0, k - 1);
      MutedUntilCleared(cfg, b, steps, k - 1);
      StepMuted(cfg, before, steps[k - 1]);
    }
  }

  // ---- The windows ----

  /** The step stores to an array register. */
  predicate Rewindows(step: Step) { step.Store? && LegalWidth(step.width) && ToArray(step.pa) }

  lemma StepKeepsAars(cfg: Config, b: State, step: Step)
    requires cfg.Valid() && !Rewindows(step)
    ensures Next(cfg, b, step).Aars() == b.Aars()
  {
    match step
    case Load(pa, width, d) => if Decode(b.Aars(), pa).Mmio? { LoadMoves(cfg, b.io, pa, d); }
    case Store(pa, width, v) => StoreKeepsOthers(cfg, b, pa, v, width);
    case _ =>
  }

  /** Until an array register is stored to, what is DRAM stays DRAM and what is
      unclaimed stays unclaimed. */
  lemma {:induction false} WindowsStay(cfg: Config, b: State, steps: seq<Step>, k: nat)
    requires cfg.Valid() && k <= |steps| && forall m | 0 <= m < k :: !Rewindows(steps[m])
    ensures At(cfg, b, steps, k).Aars() == b.Aars()
    decreases k
  {
    if k > 0 {
      WindowsStay(cfg, b, steps, k - 1);
      StepKeepsAars(cfg, At(cfg, b, steps, k - 1), steps[k - 1]);
    }
  }
}

/** What the events of a bus run do to the chipset glue, one effect at a time
    (chipsetLib/TsunamiChipset.h). */
module GlueRuns {
  import opened Words
  import opened Arithmetic
  import opened MiscSpec
  import opened CchipOps
  import opened CchipRuns
  import opened PicModel
  import opened Chipset

  /** A port access that reaches the PIC alone, a report of nonexistent memory, a
      MISC write, an acknowledge, an evaluation, the passing of time, or a CPU's
      take. */
  datatype Effect =
    | PicOnly(pic: Pair)
    | Reported
    | Wrote(w: Word)
    | Acknowledged(d: Devices)
    | Evaluated(d: Devices)
    | Passed(cycles: Quad)
    | TookTimer(n: Cpu)
    | TookIpi(n: Cpu)

  function Take(cfg: Config, g: Glue, e: Effect): Glue
    requires cfg.Valid()
  {
    match e
    case PicOnly(pic) => g.(pic := pic)
    case Reported => g.(cchip := ReportNxm(g.cchip, {}))
    case Wrote(w) => g.(cchip := Perform(cfg.cpus, g.cchip, WriteMisc(w)))
    case Acknowledged(d) => Iack(cfg, g, d).0
    case Evaluated(d) => Eval(cfg, g, d)
    case Passed(cycles) => Advance(cfg, g, cycles)
    case TookTimer(n) => g.(cchip := Perform(cfg.cpus, g.cchip, AckTimer(n)))
    case TookIpi(n) => g.(cchip := Perform(cfg.cpus, g.cchip, AckIpi(n)))
  }

  lemma EvalKeepsMisc(cfg: Config, g: Glue, d: Devices)
    requires cfg.Valid()
    ensures Eval(cfg, g, d).cchip.misc == g.cchip.misc
    ensures NXM_LINE in Eval(cfg, g, d).cchip.drir <==> NXM_LINE in g.cchip.drir
    ensures Eval(cfg, g, d).cchip.irq2 == g.cchip.irq2 && Eval(cfg, g, d).cchip.irq3 == g.cchip.irq3
  {
  }

  /** The glue an acknowledge hands to the evaluation. */
  function Acked(g: Glue): Glue { g.(pic := PicModel.Acknowledge(g.pic).0) }

  lemma ReportRaises(s: Shared)
    ensures NXM in ReportNxm(s, {}).misc
    ensures NXM in s.misc ==> ReportNxm(s, {}) == s
    ensures BRIDGE_LINE in ReportNxm(s, {}).drir <==> BRIDGE_LINE in s.drir
  {
    NxmBits(s.misc, {}, NXM);
  }

  /** An effect leaves NXM up if and only if it reports, or NXM was up and it does
      not clear it. */
  lemma EffectNxm(cfg: Config, g: Glue, e: Effect)
    requires cfg.Valid()
    ensures NXM in Take(cfg, g, e).cchip.misc <==>
            e.Reported? || (NXM in g.cchip.misc && !(e.Wrote? && NXM in e.w))
  {
    match e
    case Reported => ReportRaises(g.cchip);
    case Wrote(w) => WriteBits(g.cchip.misc, w, NXM);
    case Acknowledged(d) => EvalKeepsMisc(cfg, Acked(g), d);
    case Evaluated(d) => EvalKeepsMisc(cfg, g, d);
    case _ =>
  }

  /** NXM is up and its mirror is down, as LostNxm leaves them. */
  predicate Muted(g: Glue) { NXM in g.cchip.misc && NXM_LINE !in g.cchip.drir }

  lemma EffectMuted(cfg: Config, g: Glue, e: Effect)
    requires cfg.Valid() && Muted(g) && !(e.Wrote? && NXM in e.w)
    ensures Muted(Take(cfg, g, e))
  {
    EffectNxm(cfg, g, e);
    match e
    case Reported => ReportRaises(g.cchip);
    case Acknowledged(d) => EvalKeepsMisc(cfg, Acked(g), d);
    case Evaluated(d) => EvalKeepsMisc(cfg, g, d);
    case _ =>
  }

  ghost predicate RunInvariant(cfg: Config, rev: Word, g: Glue) {
    Inv(cfg.cpus, rev, g.cchip) && Mirrored(g)
  }

  lemma EvalInvariant(cfg: Config, rev: Word, g: Glue, d: Devices)
    requires cfg.Valid() && cfg.iic != BRIDGE_LINE && RunInvariant(cfg, rev, g)
    ensures RunInvariant(cfg, rev, Eval(cfg, g, d))
  {
    EvalKeepsMisc(cfg, g, d);
    EvalMirrors(cfg, g, d);
  }

  lemma PerformInvariant(cfg: Config, rev: Word, g: Glue, op: CchipOps.Op)
    requires RunInvariant(cfg, rev, g) && !op.Assert? && !op.Deassert?
    ensures RunInvariant(cfg, rev, g.(cchip := Perform(cfg.cpus, g.cchip, op)))
  {
    PerformInv(cfg.cpus, rev, g.cchip, op);
    PerformKeepsLine(cfg.cpus, g.cchip, op, BRIDGE_LINE);
  }

  /** Every effect keeps the Cchip's invariant, NXM with its mirror among it, and
      the bridge mirror. */
  lemma EffectInvariant(cfg: Config, rev: Word, g: Glue, e: Effect)
    requires cfg.Valid() && cfg.iic != BRIDGE_LINE && RunInvariant(cfg, rev, g)
    ensures RunInvariant(cfg, rev, Take(cfg, g, e))
  {
    match e
    case PicOnly(pic) =>
    case Reported =>
      ReportIsLatchIff(cfg.cpus, g.cchip, {});
      PerformInvariant(cfg, rev, g, LatchNxm({}));
    case Wrote(w) => PerformInvariant(cfg, rev, g, WriteMisc(w));
    case Acknowledged(d) => EvalInvariant(cfg, rev, Acked(g), d);
    case Evaluated(d) => EvalInvariant(cfg, rev, g, d);
    case Passed(cycles) => PerformInvariant(cfg, rev, g, FireTimer);
    case TookTimer(n) => PerformInvariant(cfg, rev, g, AckTimer(n));
    case TookIpi(n) => PerformInvariant(cfg, rev, g, AckIpi(n));
  }
}

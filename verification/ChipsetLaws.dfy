/** What the chipset's calls leave of the device lines, and the vector that an
    acknowledge reads (chipsetLib/TsunamiChipset.h:209-400). */
module ChipsetLaws {
  import opened Words
  import opened Arithmetic
  import opened Numbers
  import opened CchipOps
  import opened PicModel
  import opened PicRuns
  import opened PicLaws
  import opened Chipset

  // ---- Device lines ----

  /** The level that the devices put on an interrupt line, if they drive it. */
  predicate DeviceLine(l: IrqLine) { l == 3 || l == 4 || l == 6 }

  function DeviceLevel(d: Devices, l: IrqLine): bool
    requires DeviceLine(l)
  {
    if l == 4 then d.com1 else if l == 3 then d.com2 else d.fdc
  }

  /** Driving the devices leaves their three lines at the devices' levels and
      captures their rising edges; the other thirteen lines, masks, services and
      programming stay. */
  lemma DriveLines(p: Pair, d: Devices, l: IrqLine)
    ensures var q := Drive(p, d);
            && q.lastInput[l] == (if DeviceLine(l) then DeviceLevel(d, l) else p.lastInput[l])
            && (Requested(q, l) <==> Requested(p, l) || (DeviceLine(l) && DeviceLevel(d, l) && !p.lastInput[l]))
            && q == Pair(p.master.(irr := q.master.irr), p.slave, q.lastInput, p.elcr0, p.elcr1)
  {
    var p1 := SetInput(p, 4, d.com1);
    var p2 := SetInput(p1, 3, d.com2);
    StepLevel(p, Input(4, d.com1), l);
    StepLevel(p1, Input(3, d.com2), l);
    StepLevel(p2, Input(6, d.fdc), l);
    InputRequests(p, 4, d.com1, l);
    InputRequests(p1, 3, d.com2, l);
    InputRequests(p2, 6, d.fdc, l);
  }

  // ---- The acknowledged vector ----

  /** The unit that supplies the vector of a global level, and its level there. */
  function VectorBase(p: Pair, l: IrqLine): Byte { if l < 8 then p.master.icw2 else p.slave.icw2 }

  lemma AckVector(p: Pair)
    requires BasesAligned(p)
    ensures var l, v := PendingLevel(p), PicModel.Acknowledge(p).1;
            if l < 0 then v == NoVector
            else v.Vector? && Number(v.byte) == Number(VectorBase(p, l)) + l % 8
  {
    var l := PendingLevel(p);
    if 0 <= l < 8 {
      LevelAdds(p.master.icw2, l);
    } else if l >= 8 {
      LevelAdds(p.slave.icw2, l - 8);
    }
  }

  /** The acknowledge window reads the programmed vector base plus the level of
      the best line, or 7 when no line is deliverable. */
  lemma IackValue(cfg: Config, g: Glue, d: Devices)
    requires cfg.Valid() && BasesAligned(g.pic)
    ensures var n := Number(Iack(cfg, g, d).1);
            && (forall l: IrqLine :: Best(g.pic, l) ==> n == Number(VectorBase(g.pic, l)) + l % 8)
            && ((forall l: IrqLine :: !Deliverable(g.pic, l)) ==> n == 7)
  {
    PendingIsBest(g.pic);
    AckVector(g.pic);
    SpuriousIsSeven();
    var v := PicModel.Acknowledge(g.pic).1;
    assert Iack(cfg, g, d).1 == if v.Vector? then v.byte else SPURIOUS;
  }

  lemma SpuriousIsSeven()
    ensures Number(SPURIOUS) == 7
  {
    ByteNumber(SPURIOUS);
  }
}

/** The Cchip's interrupt state as the object the code updates in place
    (chipsetLib/TsunamiCchip.h).  A weak compare-and-swap may fail without
    cause, so each loop takes the number of spurious failures it will meet. */
module Cchip {
  import opened Words
  import opened Arithmetic
  import opened Numbers
  import opened MiscSpec
  import opened CchipOps
  import opened CchipRuns
  import opened CchipCsr

  class TsunamiCchip {
    const cpuCount: int
    var misc: Word
    var drir: Word
    var pendingIrq2: Latches
    var pendingIrq3: Latches
    var aar: Aars
    var dim: Masks

    /** The state that the specification transitions speak of. */
    ghost function State(): Shared
      reads this
    {
      Shared(misc, drir, pendingIrq2, pendingIrq3)
    }

    ghost function Windows(): Registers
      reads this
    {
      Registers(aar, dim)
    }

    /** reset(): power-on interrupt state, MISC<REV> from the chip variant, the
        memory dealt out to the arrays. */
    constructor (cpuCount: int, rev: Byte, mem: nat, typhoon: bool)
      ensures this.cpuCount == cpuCount
      ensures State() == ResetState(rev)
      ensures Inv(cpuCount, Shl(rev, 32), State())
      ensures Windows() == Registers(Aar.ResetAll(mem, typhoon), [{}, {}, {}, {}])
    {
      this.cpuCount := cpuCount;
      misc := Shl(rev, 32);
      drir := {};
      pendingIrq2 := NO_LATCH;
      pendingIrq3 := NO_LATCH;
      dim := [{}, {}, {}, {}];
      var regs := Aar.ResetRegisters(mem, typhoon);
      aar := regs;
      ResetInv(cpuCount, rev);
    }

    method CompareExchangeWeak(expected: Word, desired: Word, spurious: bool) returns (ok: bool, seen: Word)
      modifies this`misc
      ensures ok <==> !spurious && old(misc) == expected
      ensures misc == if ok then desired else old(misc)
      ensures seen == old(misc)
    {
      seen := misc;
      ok := !spurious && misc == expected;
      if ok { misc := desired; }
    }

    method AssertInterrupt(line: Line)
      modifies this`drir
      ensures State() == Perform(cpuCount, old(State()), Assert(line))
    {
      drir := drir + {line};
    }

    method DeassertInterrupt(line: Line)
      modifies this`drir
      ensures State() == Perform(cpuCount, old(State()), Deassert(line))
    {
      drir := drir - {line};
    }

    method ClearPendingIrq2(n: Cpu)
      modifies this`pendingIrq2
      ensures State() == Perform(cpuCount, old(State()), AckTimer(n))
    {
      pendingIrq2 := pendingIrq2[n := false];
    }

    method ClearPendingIrq3(n: Cpu)
      modifies this`pendingIrq3
      ensures State() == Perform(cpuCount, old(State()), AckIpi(n))
    {
      pendingIrq3 := pendingIrq3[n := false];
    }

    /** b_irq<0>: some error line is raised that this CPU's mask admits. */
    method PendingIrq0(n: Cpu) returns (pending: bool)
      ensures pending <==> exists line :: 58 <= line < 64 && line in drir && line in dim[n]
    {
      var seen, enabled := drir, dim[n];
      var raised := seen * enabled * Field(58, 6);
      pending := raised != {};
      assert forall line :: line in raised <==> 58 <= line < 64 && line in seen && line in enabled;
    }

    /** One ITINTR bit per configured CPU, each under its own CAS loop. */
    method FireIntervalTimer(spurious: nat)
      modifies this`misc, this`pendingIrq2
      ensures State() == Perform(cpuCount, old(State()), FireTimer)
    {
      var n, left := 0, spurious;
      while n < cpuCount && n < MAX_CPUS
        invariant 0 <= n <= MAX_CPUS
        invariant n <= cpuCount || n == 0
        invariant misc == old(misc) + (set b | b in ITINTR && b - 4 < n)
        invariant forall k: Cpu :: pendingIrq2[k] == (old(pendingIrq2)[k] || k < n)
      {
        var seen, ok := misc, false;
        ghost var before := misc;
        while !ok
          invariant misc == if ok then TimerWord(before, n) else before
          invariant seen == before
          modifies this`misc
          decreases left, !ok
        {
          var fail := left > 0;
          ok, seen := CompareExchangeWeak(seen, seen + {4 + n}, fail);
          if fail { left := left - 1; }
        }
        pendingIrq2 := pendingIrq2[n := true];
        n := n + 1;
      }
      assert misc == old(misc) + TimerBits(cpuCount);
      assert pendingIrq2 == Latched(old(pendingIrq2), ITINTR, 4, cpuCount);
    }

    /** Raises NXM, locks NXS on the edge, and mirrors NXM into DRIR<63>. */
    method LatchNxm(src: Word, spurious: nat)
      modifies this`misc, this`drir
      ensures State() == Perform(cpuCount, old(State()), CchipOps.LatchNxm(src))
    {
      var seen, ok, left := misc, false, spurious;
      while !ok
        invariant misc == if ok then NxmWord(old(misc), src) else old(misc)
        invariant seen == old(misc)
        modifies this`misc
        decreases left, !ok
      {
        var next := seen + {NXM};
        if NXM !in seen {
          next := (next - NXS) + Shl(src * LowMask(3), 29);
        }
        var fail := left > 0;
        ok, seen := CompareExchangeWeak(seen, next, fail);
        if fail { left := left - 1; }
      }
      drir := drir + {NXM_LINE};
    }

    /** TsunamiChipset::reportNxm: absorbed while NXM is up. */
    method ReportNxm(src: Word, spurious: nat)
      modifies this`misc, this`drir
      ensures State() == CchipRuns.ReportNxm(old(State()), src)
    {
      if NXM !in misc {
        LatchNxm(src, spurious);
      }
    }

    /** The CAS loop of miscWriteW1C. */
    method SwapMisc(w: Word, spurious: nat)
      modifies this`misc
      ensures misc == WriteWord(old(misc), w)
    {
      var seen, ok, left := misc, false, spurious;
      while !ok
        invariant misc == if ok then WriteWord(old(misc), w) else old(misc)
        invariant seen == old(misc)
        modifies this`misc
        decreases left, !ok
      {
        var staged: Word := (seen - w * W1C) + w * W1S;
        var tried: Word := staged * ABT - seen * ABT;
        if tried != {} && seen * ABT == {} {
          staged := staged + Shr(tried, 4) * ABW;
        }
        if ACL in w {
          staged := staged - (ABT + ABW);
        }
        if w * IPREQ != {} {
          staged := staged + Shr(w * IPREQ, 4) * IPINTR;
        }
        var fail := left > 0;
        ok, seen := CompareExchangeWeak(seen, (staged - WO) + seen * WO, fail);
        if fail { left := left - 1; }
      }
    }

    /** A MISC write: the swap, then the latch and mirror updates in order. */
    method MiscWriteW1C(w: Word, spurious: nat)
      modifies this`misc, this`drir, this`pendingIrq2, this`pendingIrq3
      ensures State() == Perform(cpuCount, old(State()), WriteMisc(w))
    {
      SwapMisc(w, spurious);
      for n := 0 to MAX_CPUS
        invariant forall k: Cpu :: pendingIrq2[k] == (old(pendingIrq2)[k] && (k < n ==> 4 + k !in w))
        invariant misc == WriteWord(old(misc), w) && drir == old(drir) && pendingIrq3 == old(pendingIrq3)
      {
        if 4 + n in w { ClearPendingIrq2(n); }
      }
      if NXM in w {
        drir := drir - {NXM_LINE};
      }
      RaiseIpis(w);
      for n := 0 to MAX_CPUS
        invariant forall k: Cpu ::
                    pendingIrq3[k] == (Latched(old(pendingIrq3), w, 12, cpuCount)[k] && (k < n ==> 8 + k !in w))
        invariant misc == WriteWord(old(misc), w)
        invariant drir == if NXM in w then old(drir) - {NXM_LINE} else old(drir)
        invariant forall k: Cpu :: pendingIrq2[k] == (old(pendingIrq2)[k] && 4 + k !in w)
      {
        if 8 + n in w { ClearPendingIrq3(n); }
      }
      assert pendingIrq2 == Dropped(old(pendingIrq2), w, 4);
      assert pendingIrq3 == Dropped(Latched(old(pendingIrq3), w, 12, cpuCount), w, 8);
    }

    /** IPREQ raises the latch of each targeted CPU that is configured. */
    method RaiseIpis(w: Word)
      modifies this`pendingIrq3
      ensures pendingIrq3 == Latched(old(pendingIrq3), w, 12, cpuCount)
    {
      var n := 0;
      while n < cpuCount && n < MAX_CPUS
        invariant 0 <= n <= MAX_CPUS && (n <= cpuCount || n == 0)
        invariant forall k: Cpu :: pendingIrq3[k] == (old(pendingIrq3)[k] || (k < n && 12 + k in w))
      {
        if 12 + n in w { pendingIrq3 := pendingIrq3[n := true]; }
        n := n + 1;
      }
      assert pendingIrq3 == Latched(old(pendingIrq3), w, 12, cpuCount);
    }

    /** The register window, read on behalf of CPU 0. */
    method ReadRegister(off: nat) returns (a: Answer)
      ensures a == ReadCsr(State(), Windows(), off)
    {
      match CsrAt(off) {
        case Misc =>
          var raw := misc;
          a := Value(Number(raw - CPUID));
        case Array(i) => a := Value(aar[i].word);
        case Mask(n) => a := Value(Number(dim[n]));
        case Request(n) => a := Value(Number(drir * dim[n]));
        case Raw => a := Value(Number(drir));
        case Plain => a := Unmodelled;
      }
    }

    method WriteRegister(off: nat, v: Quad, spurious: nat)
      modifies this
      ensures (State(), Windows()) == WriteCsr(cpuCount, old(State()), old(Windows()), off, v)
    {
      match CsrAt(off) {
        case Misc => MiscWriteW1C(Bits(v), spurious);
        case Array(i) => aar := aar[i := Aar.Register(v, v != 0)];
        case Mask(n) => dim := dim[n := Bits(v)];
        case _ =>
      }
    }
  }
}

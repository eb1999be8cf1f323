/** MISC<ABT>/MISC<ABW> boot arbitration, section 12.2 of the 21272 manual
    (chipsetLib/TsunamiCchip.h:1257-1347). */
module Arbitration {
  import opened Words
  import opened MiscSpec
  import opened CchipOps
  import opened MiscCas

  predicate TryBit(m: Word, n: Cpu) { 20 + n in m }

  predicate WonBit(m: Word, n: Cpu) { 16 + n in m }

  predicate Clears(a: Action) { a.CasWrite? && ACL in a.w }

  /** CPU n's try bit is written. */
  predicate Tries(a: Action, n: Cpu) { a.CasWrite? && 20 + n in a.w }

  /** CPU n's won bit is written directly. */
  predicate Grabs(a: Action, n: Cpu) { a.CasWrite? && 16 + n in a.w }

  predicate AnyTries(a: Action) { a.CasWrite? && a.w * ABT != {} }

  /** Number of actions up to and including the last arbitration clear. */
  function LastClear(acts: seq<Action>): (k: nat)
    ensures k <= |acts|
    ensures k > 0 ==> Clears(acts[k - 1])
    ensures forall i | k <= i < |acts| :: !Clears(acts[i])
  {
    if acts == [] then 0
    else if Clears(acts[|acts| - 1]) then |acts|
    else LastClear(acts[..|acts| - 1])
  }

  /** The first action of this round that tries, or the length if none has. */
  function FirstTry(acts: seq<Action>): (f: nat)
    ensures LastClear(acts) <= f <= |acts|
    ensures f < |acts| ==> AnyTries(acts[f])
    ensures forall i | LastClear(acts) <= i < f :: !AnyTries(acts[i])
  {
    FirstTryFrom(acts, LastClear(acts))
  }

  function FirstTryFrom(acts: seq<Action>, k: nat): (f: nat)
    requires k <= |acts|
    ensures k <= f <= |acts|
    ensures f < |acts| ==> AnyTries(acts[f])
    ensures forall i | k <= i < f :: !AnyTries(acts[i])
    decreases |acts| - k
  {
    if k == |acts| || AnyTries(acts[k]) then k else FirstTryFrom(acts, k + 1)
  }

  /** CPU n has tried since the last clear. */
  ghost predicate Tried(acts: seq<Action>, n: Cpu) {
    exists i | LastClear(acts) <= i < |acts| :: Tries(acts[i], n)
  }

  ghost predicate Grabbed(acts: seq<Action>, n: Cpu) {
    exists i | LastClear(acts) <= i < |acts| :: Grabs(acts[i], n)
  }

  /** CPU n is one of those named by the first try since the last clear. */
  predicate WonFirst(acts: seq<Action>, n: Cpu) {
    FirstTry(acts) < |acts| && Tries(acts[FirstTry(acts)], n)
  }

  lemma TriedGrows(acts: seq<Action>, n: Cpu)
    requires acts != []
    ensures var a, before := acts[|acts| - 1], acts[..|acts| - 1];
            Tried(acts, n) <==> !Clears(a) && (Tried(before, n) || Tries(a, n))
  {
    var last := |acts| - 1;
    var before := acts[..last];
    if !Clears(acts[last]) {
      if Tried(before, n) {
        var i :| LastClear(before) <= i < |before| && Tries(before[i], n);
        assert Tries(acts[i], n);
      }
      if Tries(acts[last], n) {
        assert LastClear(acts) <= last;
      }
    }
  }

  lemma GrabbedGrows(acts: seq<Action>, n: Cpu)
    requires acts != []
    ensures var a, before := acts[|acts| - 1], acts[..|acts| - 1];
            Grabbed(acts, n) <==> !Clears(a) && (Grabbed(before, n) || Grabs(a, n))
  {
    var last := |acts| - 1;
    var before := acts[..last];
    if !Clears(acts[last]) {
      if Grabbed(before, n) {
        var i :| LastClear(before) <= i < |before| && Grabs(before[i], n);
        assert Grabs(acts[i], n);
      }
      if Grabs(acts[last], n) {
        assert LastClear(acts) <= last;
      }
    }
  }

  lemma WonGrows(acts: seq<Action>, n: Cpu)
    requires acts != []
    ensures var a, before := acts[|acts| - 1], acts[..|acts| - 1];
            WonFirst(acts, n) <==>
            !Clears(a) && (WonFirst(before, n) || (FirstTry(before) == |before| && Tries(a, n)))
  {
    var last := |acts| - 1;
    var a, before := acts[last], acts[..last];
    if !Clears(a) {
      var f, g := FirstTry(acts), FirstTry(before);
      assert f < last ==> AnyTries(before[f]);
      assert g < last ==> AnyTries(acts[g]);
      if Tries(a, n) {
        assert 20 + n in a.w * ABT;
      }
    }
  }

  /** Nobody has tried exactly when the round's first try is still to come. */
  lemma NoneTried(acts: seq<Action>)
    ensures (forall n: Cpu :: !Tried(acts, n)) <==> FirstTry(acts) == |acts|
  {
    var f := FirstTry(acts);
    if f < |acts| {
      var b :| b in acts[f].w * ABT;
      assert Tries(acts[f], b - 20);
      assert Tried(acts, b - 20);
    } else {
      forall n: Cpu ensures !Tried(acts, n) {
        if Tried(acts, n) {
          var i :| LastClear(acts) <= i < |acts| && Tries(acts[i], n);
          assert 20 + n in acts[i].w * ABT;
          assert AnyTries(acts[i]);
        }
      }
    }
  }

  /** What one action does to CPU n's two bits. */
  lemma ArbitrationBits(s: Shared, a: Action, n: Cpu)
    ensures var m, r := s.misc, Apply(s, a).misc;
            && (TryBit(r, n) <==> !Clears(a) && (TryBit(m, n) || Tries(a, n)))
            && (WonBit(r, n) <==> !Clears(a) && (WonBit(m, n) || Grabs(a, n) || (m * ABT == {} && Tries(a, n))))
  {
    match a
    case CasWrite(w) =>
      WriteBits(s.misc, w, 20 + n);
      WriteBits(s.misc, w, 16 + n);
    case CasNxm(src) =>
      NxmBits(s.misc, src, 20 + n);
      NxmBits(s.misc, src, 16 + n);
    case _ =>
  }

  /** For every sequence of atomic actions from a state with both fields clear,
      and hence for every interleaving: ABT is the set of CPUs that have tried
      since the last clear, and ABW is the set named by the first of those
      tries, plus the bits that were written into ABW directly. */
  lemma {:induction false} FirstTryWins(s: Shared, acts: seq<Action>, n: Cpu)
    requires s.misc * (ABT + ABW) == {}
    ensures TryBit(Replay(s, acts).misc, n) <==> Tried(acts, n)
    ensures WonBit(Replay(s, acts).misc, n) <==> WonFirst(acts, n) || Grabbed(acts, n)
    decreases |acts|, n + 1
  {
    if acts == [] {
      assert TryBit(s.misc, n) ==> 20 + n in s.misc * (ABT + ABW);
      assert WonBit(s.misc, n) ==> 16 + n in s.misc * (ABT + ABW);
    } else {
      var last := |acts| - 1;
      var a, before := acts[last], acts[..last];
      var m := Replay(s, before).misc;
      assert acts == before + [a];
      ReplayConcat(s, before, [a]);
      ReplayOne(Replay(s, before), a);
      FirstTryWins(s, before, n);
      TriedGrows(acts, n);
      GrabbedGrows(acts, n);
      WonGrows(acts, n);
      WinGate(s, before);
      ArbitrationBits(Replay(s, before), a, n);
    }
  }

  /** The code's gate, no old ABT bit, is "nobody has tried this round". */
  lemma {:induction false} WinGate(s: Shared, acts: seq<Action>)
    requires s.misc * (ABT + ABW) == {}
    ensures Replay(s, acts).misc * ABT == {} <==> FirstTry(acts) == |acts|
    decreases |acts|, MAX_CPUS + 1
  {
    var m := Replay(s, acts).misc;
    FirstTryWins(s, acts, 0);
    FirstTryWins(s, acts, 1);
    FirstTryWins(s, acts, 2);
    FirstTryWins(s, acts, 3);
    NoneTried(acts);
    assert m * ABT == {} <==> 20 + 0 !in m && 20 + 1 !in m && 20 + 2 !in m && 20 + 3 !in m by {
      forall b | b in m * ABT ensures b == 20 || b == 21 || b == 22 || b == 23 {}
      assert 20 in ABT && 21 in ABT && 22 in ABT && 23 in ABT;
    }
  }

  /** Every write names at most one trier and never writes ABW. */
  ghost predicate Polite(acts: seq<Action>) {
    forall i, n: Cpu, k: Cpu | 0 <= i < |acts| ::
      !Grabs(acts[i], n) && (Tries(acts[i], n) && Tries(acts[i], k) ==> n == k)
  }

  /** Under polite writes there is at most one winner, the first trier, and
      there is a winner exactly when somebody has tried. */
  lemma SingleWinner(s: Shared, acts: seq<Action>)
    requires s.misc * (ABT + ABW) == {} && Polite(acts)
    ensures var m := Replay(s, acts).misc;
            && (forall n: Cpu, k: Cpu :: WonBit(m, n) && WonBit(m, k) ==> n == k)
            && (forall n: Cpu :: WonBit(m, n) <==> WonFirst(acts, n))
            && (forall n: Cpu :: WonBit(m, n) ==> TryBit(m, n))
            && ((exists n: Cpu :: WonBit(m, n)) <==> (exists n: Cpu :: TryBit(m, n)))
  {
    var m := Replay(s, acts).misc;
    var f := FirstTry(acts);
    forall n: Cpu
      ensures WonBit(m, n) <==> WonFirst(acts, n)
      ensures TryBit(m, n) <==> Tried(acts, n)
    {
      FirstTryWins(s, acts, n);
    }
    NoneTried(acts);
    if f < |acts| {
      var b :| b in acts[f].w * ABT;
      assert Tries(acts[f], b - 20);
      assert WonBit(m, b - 20);
    }
  }

  /** The same at every instant of every interleaving of any number of agents. */
  lemma InterleavedWinner(sys: System, steps: seq<Step>)
    requires WellStaged(sys) && Valid(sys, steps) && sys.shared.misc * (ABT + ABW) == {}
    requires Polite(Acts(Committed(sys, steps)))
    ensures var m, acts := Run(sys, steps).shared.misc, Acts(Committed(sys, steps));
            && (forall n: Cpu, k: Cpu :: WonBit(m, n) && WonBit(m, k) ==> n == k)
            && (forall n: Cpu :: WonBit(m, n) <==> WonFirst(acts, n))
            && (forall n: Cpu :: WonBit(m, n) ==> TryBit(m, n))
            && ((exists n: Cpu :: WonBit(m, n)) <==> (exists n: Cpu :: TryBit(m, n)))
  {
    Linearizable(sys, steps);
    SingleWinner(sys.shared, Acts(Committed(sys, steps)));
  }

  /** At most one CPU has its won bit. */
  ghost predicate OneWinner(m: Word) {
    forall n: Cpu, k: Cpu :: WonBit(m, n) && WonBit(m, k) ==> n == k
  }

  ghost predicate OneNamed(acts: seq<Action>) {
    forall n: Cpu, k: Cpu :: Named(acts, n) && Named(acts, k) ==> n == k
  }

  /** For every sequence of atomic actions from a state with both fields clear:
      there is at most one winner if and only if at most one CPU is named, since
      the last clear, by the first try or by a direct write of its won bit. */
  lemma AtMostOneWinnerIff(s: Shared, acts: seq<Action>)
    requires s.misc * (ABT + ABW) == {}
    ensures OneWinner(Replay(s, acts).misc) <==> OneNamed(acts)
  {
    var m := Replay(s, acts).misc;
    forall n: Cpu ensures WonBit(m, n) <==> Named(acts, n) {
      FirstTryWins(s, acts, n);
    }
    if OneWinner(m) {
      forall n: Cpu, k: Cpu | Named(acts, n) && Named(acts, k) ensures n == k {
        assert WonBit(m, n) && WonBit(m, k);
      }
    }
    if OneNamed(acts) {
      forall n: Cpu, k: Cpu | WonBit(m, n) && WonBit(m, k) ensures n == k {
        assert Named(acts, n) && Named(acts, k);
      }
    }
  }

  ghost predicate Named(acts: seq<Action>, n: Cpu) { WonFirst(acts, n) || Grabbed(acts, n) }

  /** One impolite write is enough for two winners. */
  lemma TwoWinners()
    ensures var m := Replay(Shared({}, {}, NO_LATCH, NO_LATCH), [CasWrite({20, 21})]).misc;
            16 in m && 17 in m
  {
    var s := Shared({}, {}, NO_LATCH, NO_LATCH);
    ReplayOne(s, CasWrite({20, 21}));
    WriteBits({}, {20, 21}, 16);
    WriteBits({}, {20, 21}, 17);
  }

  /** From a round nobody has entered, a write that does not clear leaves at
      most one winner if and only if it names at most one CPU in ABT and ABW
      together. */
  lemma OneWinnerIff(m: Word, w: Word)
    requires m * (ABT + ABW) == {} && ACL !in w
    ensures (forall n: Cpu, k: Cpu :: WonBit(WriteWord(m, w), n) && WonBit(WriteWord(m, w), k) ==> n == k) <==>
            (forall n: Cpu, k: Cpu :: (WonBit(w, n) || TryBit(w, n)) && (WonBit(w, k) || TryBit(w, k)) ==> n == k)
  {
    forall n: Cpu ensures WonBit(WriteWord(m, w), n) <==> WonBit(w, n) || TryBit(w, n) {
      WinsFresh(m, w, n);
    }
  }

  lemma WinsFresh(m: Word, w: Word, n: Cpu)
    requires m * (ABT + ABW) == {} && ACL !in w
    ensures WonBit(WriteWord(m, w), n) <==> WonBit(w, n) || TryBit(w, n)
  {
    assert m * ABT <= m * (ABT + ABW);
    WriteBits(m, w, 16 + n);
    assert 16 + n in m ==> 16 + n in m * (ABT + ABW);
  }
}

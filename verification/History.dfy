/** A latch over a history of events that set it and events that clear it. */
module History {

  /** Nothing clears it from `from` up to k. */
  ghost predicate Quiet(clears: nat -> bool, from: nat, k: nat) {
    forall m: nat | from <= m < k :: !clears(m)
  }

  /** Some event before k set it and none has cleared it since; or it was up at
      the start and none has cleared it. */
  ghost predicate Up(start: bool, sets: nat -> bool, clears: nat -> bool, k: nat) {
    || (exists j: nat :: j < k && sets(j) && Quiet(clears, j + 1, k))
    || (start && Quiet(clears, 0, k))
  }

  lemma QuietGrows(clears: nat -> bool, from: nat, k: nat)
    requires from <= k
    ensures Quiet(clears, from, k + 1) <==> Quiet(clears, from, k) && !clears(k)
  {
  }

  /** One more event. */
  lemma UpGrows(start: bool, sets: nat -> bool, clears: nat -> bool, k: nat)
    ensures Up(start, sets, clears, k + 1) <==> sets(k) || (Up(start, sets, clears, k) && !clears(k))
  {
    QuietGrows(clears, 0, k);
    if sets(k) { assert Quiet(clears, k + 1, k + 1); }
    forall j: nat | j < k && sets(j)
      ensures Quiet(clears, j + 1, k + 1) <==> Quiet(clears, j + 1, k) && !clears(k)
    {
      QuietGrows(clears, j + 1, k);
    }
  }

  /** Each event sets, clears or leaves the level. */
  ghost predicate Follows(level: nat -> bool, sets: nat -> bool, clears: nat -> bool, k: nat) {
    forall i: nat | i < k :: level(i + 1) <==> sets(i) || (level(i) && !clears(i))
  }

  /** Anything that each event sets, clears or leaves is such a latch. */
  lemma {:induction false} IsUp(level: nat -> bool, sets: nat -> bool, clears: nat -> bool, k: nat)
    requires Follows(level, sets, clears, k)
    ensures level(k) <==> Up(level(0), sets, clears, k)
    decreases k
  {
    if k > 0 {
      IsUp(level, sets, clears, k - 1);
      UpGrows(level(0), sets, clears, k - 1);
    }
  }

  /** The same with the levels at both ends named. */
  lemma EndsUp(level: nat -> bool, sets: nat -> bool, clears: nat -> bool, k: nat, start: bool, end: bool)
    requires Follows(level, sets, clears, k)
    requires level(0) == start && level(k) == end
    ensures end <==> Up(start, sets, clears, k)
  {
    IsUp(level, sets, clears, k);
  }
}

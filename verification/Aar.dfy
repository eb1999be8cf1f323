/** The array address registers and the DRAM windows they decode to
    (chipsetLib/TsunamiCchip.h:261-325, 1469-1521).  A register word is a
    number; its fields are disjoint, so the code's shifts and ors are products
    and sums here. */
module Aar {
  import opened Arithmetic

  const MB16: nat := 0x100_0000
  const GB: nat := 0x4000_0000
  const ARRAYS: nat := 4

  /** Largest array: 8 GB on Typhoon, 1 GB otherwise. */
  function MaxArray(typhoon: bool): nat { if typhoon then 8 * GB else GB }

  /** Where array i starts when the arrays before it are full. */
  function Start(typhoon: bool, i: nat): nat { if typhoon then i * 0x2_0000_0000 else i * 0x4000_0000 }

  /** The ASIZ code that computeAAR picks for a size. */
  function Asiz(size: nat, typhoon: bool): nat {
    if MB16 <= size < 2 * MB16 then 1
    else if 2 * MB16 <= size < 4 * MB16 then 2
    else if 4 * MB16 <= size < 8 * MB16 then 3
    else if 8 * MB16 <= size < 16 * MB16 then 4
    else if 16 * MB16 <= size < 32 * MB16 then 5
    else if 32 * MB16 <= size < GB then 6
    else if GB <= size < 2 * GB then 7
    else if typhoon && 2 * GB <= size < 4 * GB then 8
    else if typhoon && 4 * GB <= size < 8 * GB then 9
    else if typhoon && 8 * GB <= size then 10
    else 7
  }

  function ComputeAar(base: nat, size: nat, typhoon: bool): nat {
    if size == 0 then 0 else base / MB16 % 2048 * MB16 + Asiz(size, typhoon) * 4096 + 9
  }

  function BaseOf(word: nat): nat { word / MB16 % 2048 * MB16 }

  function SizeOf(word: nat): nat {
    var asiz := word / 4096 % 16;
    if asiz == 0 then 0 else MB16 * Pow2(asiz - 1)
  }

  datatype Register = Register(word: nat, enabled: bool)

  predicate InWindow(r: Register, pa: nat) {
    r.enabled && SizeOf(r.word) != 0 && BaseOf(r.word) <= pa < BaseOf(r.word) + SizeOf(r.word)
  }

  ghost predicate IsDram(regs: seq<Register>, pa: nat) {
    exists i | 0 <= i < |regs| :: InWindow(regs[i], pa)
  }

  method IsDramAddress(regs: seq<Register>, pa: nat) returns (hit: bool)
    ensures hit <==> IsDram(regs, pa)
  {
    for i := 0 to |regs|
      invariant forall j | 0 <= j < i :: !InWindow(regs[j], pa)
    {
      if regs[i].enabled {
        var base, size := BaseOf(regs[i].word), SizeOf(regs[i].word);
        if size != 0 && base <= pa < base + size { return true; }
      }
    }
    return false;
  }

  // ---- Reset ----

  /** Bytes of memory that array i holds. */
  function Chunk(mem: nat, typhoon: bool, i: nat): nat {
    var max, start := MaxArray(typhoon), Start(typhoon, i);
    if mem <= start then 0 else if mem - start < max then mem - start else max
  }

  function ResetRegister(mem: nat, typhoon: bool, i: nat): Register {
    if Chunk(mem, typhoon, i) == 0 then Register(0, false)
    else Register(ComputeAar(Start(typhoon, i), Chunk(mem, typhoon, i), typhoon), true)
  }

  /** The reset loop: hand out the memory, one array at a time. */
  method ResetRegisters(mem: nat, typhoon: bool) returns (regs: seq<Register>)
    ensures regs == seq(ARRAYS, i requires 0 <= i => ResetRegister(mem, typhoon, i))
  {
    var max := MaxArray(typhoon);
    var remaining, base := mem, 0;
    regs := [];
    for i := 0 to ARRAYS
      invariant |regs| == i
      invariant forall j | 0 <= j < i :: regs[j] == ResetRegister(mem, typhoon, j)
      invariant remaining == if mem <= Start(typhoon, i) then 0 else mem - Start(typhoon, i)
      invariant remaining > 0 ==> base == Start(typhoon, i)
    {
      if remaining == 0 {
        regs := regs + [Register(0, false)];
      } else {
        var thisArray := if remaining < max then remaining else max;
        regs := regs + [Register(ComputeAar(base, thisArray, typhoon), true)];
        base := base + thisArray;
        remaining := remaining - thisArray;
      }
    }
  }

  ghost function ResetAll(mem: nat, typhoon: bool): (regs: seq<Register>)
    ensures |regs| == ARRAYS
  {
    seq(ARRAYS, i requires 0 <= i => ResetRegister(mem, typhoon, i))
  }

  // ---- What the reset registers decode to ----

  lemma Pow2Values()
    ensures Pow2(0) == 1 && Pow2(1) == 2 && Pow2(2) == 4 && Pow2(3) == 8 && Pow2(4) == 16
    ensures Pow2(5) == 32 && Pow2(6) == 64 && Pow2(7) == 128 && Pow2(8) == 256 && Pow2(9) == 512
  {
  }

  /** decodeAAR after computeAAR: the base returns exactly; the size returns
      rounded down to a power of two, except that a size under 16 MB comes back
      as 1 GB. */
  lemma DecodeCompute(base: nat, size: nat, typhoon: bool)
    requires base % MB16 == 0 && base < 2048 * MB16
    requires 0 < size <= MaxArray(typhoon)
    ensures BaseOf(ComputeAar(base, size, typhoon)) == base
    ensures var s := SizeOf(ComputeAar(base, size, typhoon));
            if size < MB16 then s == GB
            else s <= size < 2 * s && s == Pow2(23 + Asiz(size, typhoon)) && (size == MaxArray(typhoon) ==> s == size)
  {
    DecodedFields(base, size, typhoon);
    AsizRounds(size, typhoon);
  }

  lemma DecodedFields(base: nat, size: nat, typhoon: bool)
    requires base % MB16 == 0 && base < 2048 * MB16 && size > 0
    ensures BaseOf(ComputeAar(base, size, typhoon)) == base
    ensures SizeOf(ComputeAar(base, size, typhoon)) == MB16 * Pow2(Asiz(size, typhoon) - 1)
  {
    FieldsApart(base / MB16, Asiz(size, typhoon));
  }

  /** The power of two an ASIZ code stands for, against the size it was picked
      for. */
  lemma AsizRounds(size: nat, typhoon: bool)
    requires 0 < size <= MaxArray(typhoon)
    ensures var s := MB16 * Pow2(Asiz(size, typhoon) - 1);
            if size < MB16 then s == GB
            else s <= size < 2 * s && s == Pow2(23 + Asiz(size, typhoon)) && (size == MaxArray(typhoon) ==> s == size)
  {
    Pow2Values();
    Pow2Scales(Asiz(size, typhoon) - 1);
  }

  /** The base and size fields of a register word do not disturb each other. */
  lemma FieldsApart(chunk: nat, a: nat)
    requires a < 16
    ensures (chunk * MB16 + a * 4096 + 9) / MB16 == chunk
    ensures (chunk * MB16 + a * 4096 + 9) / 4096 % 16 == a
  {
    AboveBit24(chunk, a * 4096 + 9);
    AboveBit12(chunk * 4096 + a, 9);
    LowFour(chunk * 256, a);
  }

  lemma AboveBit24(high: nat, low: nat)
    requires low < MB16
    ensures (high * MB16 + low) / MB16 == high
  {
  }

  lemma AboveBit12(high: nat, low: nat)
    requires low < 4096
    ensures (high * 4096 + low) / 4096 == high
  {
  }

  lemma LowFour(high: nat, low: nat)
    requires low < 16
    ensures (high * 16 + low) % 16 == low
  {
  }

  lemma {:induction false} Pow2Scales(k: nat)
    ensures MB16 * Pow2(k) == Pow2(24 + k)
    decreases k
  {
    if k == 0 {
      assert Pow2(8) == 256 && Pow2(12) == 0x1000 && Pow2(16) == 0x1_0000 && Pow2(20) == 0x10_0000;
      assert Pow2(24) == MB16;
    } else {
      Pow2Scales(k - 1);
    }
  }

  /** What the fields of any register word say: the base is bits <34:24> in
      place, the size 16 MB doubled ASIZ - 1 times, or nothing for ASIZ 0. */
  lemma FieldsDecode(word: nat)
    ensures BaseOf(word) == word % 0x8_0000_0000 - word % 0x100_0000
    ensures var asiz := word % 0x1_0000 / 0x1000;
            SizeOf(word) == if asiz == 0 then 0 else Pow2(23 + asiz)
  {
    var asiz := word % 0x1_0000 / 0x1000;
    assert word / 4096 % 16 == asiz;
    if asiz > 0 { Pow2Scales(asiz - 1); }
    BaseInPlace(word);
  }

  lemma BaseInPlace(word: nat)
    ensures word / 0x100_0000 % 2048 * 0x100_0000 == word % 0x8_0000_0000 - word % 0x100_0000
  {
  }

  /** The fields that reset does not use for addressing: thirteen row bits, two
      bank bits, and everything else clear. */
  lemma ResetWordFields(base: nat, size: nat, typhoon: bool)
    requires size > 0 && size <= MaxArray(typhoon)
    ensures var word := ComputeAar(base, size, typhoon);
            word % 4 == 1 && word / 4 % 4 == 2 && word / 16 % 256 == 0 && word / 0x1_0000 % 256 == 0
            && word < 0x8_0000_0000
  {
    LowFields(base / MB16 % 2048, Asiz(size, typhoon));
  }

  lemma LowFields(chunk: nat, a: nat)
    requires chunk < 2048 && a < 16
    ensures var word := chunk * MB16 + a * 4096 + 9;
            word % 4 == 1 && word / 4 % 4 == 2 && word / 16 % 256 == 0 && word / 0x1_0000 % 256 == 0
            && word < 0x8_0000_0000
  {
    var word := chunk * MB16 + a * 4096 + 9;
    assert word / 4 == chunk * 0x40_0000 + a * 1024 + 2;
    assert word / 16 == chunk * 0x10_0000 + a * 256;
    assert word / 0x1_0000 == chunk * 256;
  }

  /** Bytes of the window that reset opens for array i. */
  function Window(mem: nat, typhoon: bool, i: nat): nat {
    SizeOf(ResetRegister(mem, typhoon, i).word)
  }

  lemma ResetDecodes(mem: nat, typhoon: bool, i: nat)
    requires i < ARRAYS
    ensures var r, c, w := ResetRegister(mem, typhoon, i), Chunk(mem, typhoon, i), Window(mem, typhoon, i);
            && (forall pa: nat :: InWindow(r, pa) <==> c > 0 && Start(typhoon, i) <= pa < Start(typhoon, i) + w)
            && (c >= MB16 ==> w <= c < 2 * w && w == Pow2(23 + Asiz(c, typhoon)))
            && (0 < c < MB16 ==> w == GB)
            && (c == MaxArray(typhoon) ==> w == c)
  {
    var c := Chunk(mem, typhoon, i);
    if c > 0 {
      DecodeCompute(Start(typhoon, i), c, typhoon);
    }
  }

  function Min(a: nat, b: nat): nat { if a < b then a else b }

  /** Memory the four arrays can hold. */
  function Covered(mem: nat, typhoon: bool): nat { Min(mem, Start(typhoon, ARRAYS)) }

  /** The bytes left over for the last, partly filled array. */
  function LastChunk(mem: nat, typhoon: bool): nat {
    if mem >= Start(typhoon, ARRAYS) then 0 else if typhoon then mem % 0x2_0000_0000 else mem % 0x4000_0000
  }

  /** The array that holds them. */
  function LastIndex(mem: nat, typhoon: bool): nat {
    if mem >= Start(typhoon, ARRAYS) then ARRAYS else if typhoon then mem / 0x2_0000_0000 else mem / 0x4000_0000
  }

  lemma ChunkIs(mem: nat, typhoon: bool, i: nat)
    requires i < ARRAYS
    ensures Chunk(mem, typhoon, i) ==
            if i < LastIndex(mem, typhoon) then MaxArray(typhoon)
            else if i == LastIndex(mem, typhoon) then LastChunk(mem, typhoon)
            else 0
    ensures LastIndex(mem, typhoon) < ARRAYS ==>
              Covered(mem, typhoon) == Start(typhoon, LastIndex(mem, typhoon)) + LastChunk(mem, typhoon)
  {
  }

  /** For every memory size whose last chunk is empty or at least 16 MB, the
      reset windows are pairwise disjoint and lie inside the covered memory. */
  lemma ResetWindowsDisjoint(mem: nat, typhoon: bool, i: nat, j: nat, pa: nat)
    requires i < ARRAYS && j < ARRAYS
    requires LastChunk(mem, typhoon) == 0 || LastChunk(mem, typhoon) >= MB16
    requires InWindow(ResetRegister(mem, typhoon, i), pa)
    ensures pa < Covered(mem, typhoon)
    ensures InWindow(ResetRegister(mem, typhoon, j), pa) ==> i == j
  {
    ChunkIs(mem, typhoon, i);
    ChunkIs(mem, typhoon, j);
    ResetDecodes(mem, typhoon, i);
    ResetDecodes(mem, typhoon, j);
  }

  predicate PowerOfTwo(n: nat) { exists k: nat | k <= n :: n == Pow2(k) }

  /** A window size that rounds n down is n exactly when n is a power of two. */
  lemma RoundedIff(n: nat, k: nat)
    requires Pow2(k) <= n < 2 * Pow2(k)
    ensures n == Pow2(k) <==> PowerOfTwo(n)
  {
    if n == Pow2(k) {
      Pow2Big(k);
    }
    if PowerOfTwo(n) {
      var m: nat :| m <= n && n == Pow2(m);
      if m < k { Pow2Grows(m, k); } else if m > k { Pow2Grows(k, m); }
    }
  }

  lemma {:induction false} Pow2Big(k: nat)
    ensures k <= Pow2(k)
    decreases k
  {
    if k > 0 { Pow2Big(k - 1); }
  }

  ghost predicate Exact(mem: nat, typhoon: bool) {
    forall pa: nat :: IsDram(ResetAll(mem, typhoon), pa) <==> pa < Covered(mem, typhoon)
  }

  /** The reset windows are exactly the covered memory if and only if the last
      chunk is empty, or a power of two of at least 16 MB. */
  lemma ExactIff(mem: nat, typhoon: bool)
    ensures Exact(mem, typhoon) <==>
            var c := LastChunk(mem, typhoon);
            c == 0 || (c >= MB16 && PowerOfTwo(c))
  {
    var c, n := LastChunk(mem, typhoon), LastIndex(mem, typhoon);
    if c == 0 {
      FullOrEmpty(mem, typhoon);
    } else {
      assert n < ARRAYS;
      ResetDecodes(mem, typhoon, n);
      ChunkIs(mem, typhoon, n);
      if c < MB16 {
        TooWide(mem, typhoon);
      } else {
        RoundedIff(c, 23 + Asiz(c, typhoon));
        LastWindow(mem, typhoon);
      }
    }
  }

  lemma FullOrEmpty(mem: nat, typhoon: bool)
    requires LastChunk(mem, typhoon) == 0
    ensures Exact(mem, typhoon)
  {
    ChunkIs(mem, typhoon, 0);
    forall pa: nat ensures IsDram(ResetAll(mem, typhoon), pa) <==> pa < Covered(mem, typhoon) {
      Covers(mem, typhoon, pa);
    }
  }

  /** Which addresses array i's window holds. */
  lemma ArrayHolds(mem: nat, typhoon: bool, i: nat, pa: nat)
    requires i < ARRAYS
    ensures var n := LastIndex(mem, typhoon);
            InWindow(ResetRegister(mem, typhoon, i), pa) <==>
            || (i < n && Start(typhoon, i) <= pa < Start(typhoon, i + 1))
            || (i == n && LastChunk(mem, typhoon) > 0
                && Start(typhoon, n) <= pa < Start(typhoon, n) + Window(mem, typhoon, n))
  {
    ChunkIs(mem, typhoon, i);
    ResetDecodes(mem, typhoon, i);
  }

  /** Membership in the union of the four windows. */
  lemma Covers(mem: nat, typhoon: bool, pa: nat)
    ensures var n := LastIndex(mem, typhoon);
            IsDram(ResetAll(mem, typhoon), pa) <==>
            || pa < Start(typhoon, n)
            || (n < ARRAYS && LastChunk(mem, typhoon) > 0
                && Start(typhoon, n) <= pa < Start(typhoon, n) + Window(mem, typhoon, n))
  {
    var n, regs := LastIndex(mem, typhoon), ResetAll(mem, typhoon);
    ArrayHolds(mem, typhoon, 0, pa);
    ArrayHolds(mem, typhoon, 1, pa);
    ArrayHolds(mem, typhoon, 2, pa);
    ArrayHolds(mem, typhoon, 3, pa);
    assert IsDram(regs, pa) <==>
           InWindow(regs[0], pa) || InWindow(regs[1], pa) || InWindow(regs[2], pa) || InWindow(regs[3], pa);
  }

  lemma TooWide(mem: nat, typhoon: bool)
    requires 0 < LastChunk(mem, typhoon) < MB16
    ensures !Exact(mem, typhoon)
  {
    var pa := Covered(mem, typhoon);
    ChunkIs(mem, typhoon, LastIndex(mem, typhoon));
    ResetDecodes(mem, typhoon, LastIndex(mem, typhoon));
    Covers(mem, typhoon, pa);
    assert IsDram(ResetAll(mem, typhoon), pa);
  }

  lemma LastWindow(mem: nat, typhoon: bool)
    requires LastChunk(mem, typhoon) >= MB16
    ensures Exact(mem, typhoon) <==> Window(mem, typhoon, LastIndex(mem, typhoon)) == LastChunk(mem, typhoon)
  {
    var n := LastIndex(mem, typhoon);
    ChunkIs(mem, typhoon, n);
    ResetDecodes(mem, typhoon, n);
    var w := Window(mem, typhoon, n);
    if w == LastChunk(mem, typhoon) {
      forall pa: nat ensures IsDram(ResetAll(mem, typhoon), pa) <==> pa < Covered(mem, typhoon) {
        Covers(mem, typhoon, pa);
      }
    } else {
      var pa := Start(typhoon, n) + w;
      Covers(mem, typhoon, pa);
      assert pa < Covered(mem, typhoon) && !IsDram(ResetAll(mem, typhoon), pa);
    }
  }
}

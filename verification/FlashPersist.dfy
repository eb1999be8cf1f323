/** The flash's backing file: load, debounced flush and forced flush
    (chipsetLib/FlashRom.cpp:177-338). */
module FlashPersist {
  import opened Arithmetic
  import opened FlashModel

  /** The backing file: absent, or its bytes. */
  datatype File = Missing | Bytes(bytes: seq<Cell>)

  /** What the host answers during one flushToFile call: whether a path is bound
      and the temporary file opens, how many bytes it takes, whether it flushes,
      and whether it can be renamed over the removed target. */
  datatype Io = Io(bound: bool, tempOpens: bool, put: nat, flushed: bool, renamed: bool)
  {
    /** The whole image reached the temporary file. */
    predicate Staged() { bound && tempOpens && put == SIZE && flushed }

    predicate Succeeds() { Staged() && renamed }
  }

  /** The device, its backing file, and whether a whole image was restored from
      one. */
  datatype Disk = Disk(flash: Flash, file: File, backed: bool)

  /** The file is a whole image and was read whole. */
  predicate Restores(file: File, readAll: bool) { file.Bytes? && |file.bytes| == SIZE && readAll }

  /** loadRaw: adopt an image of the right size, or start factory-erased.  A
      failed load does not forget an earlier one that succeeded. */
  function LoadRaw(d: Disk, file: File, readAll: bool): Disk {
    var image := if Restores(file, readAll) then file.bytes else Blank();
    Disk(Flash(image, ReadArray, false, false, d.flash.lastMutate), file, d.backed || Restores(file, readAll))
  }

  /** seedFrom: copy the firmware image over the front of the array. */
  function Seed(d: Disk, image: seq<Cell>): Disk {
    if image == [] then d
    else
      var data := seq(SIZE, i requires 0 <= i < SIZE => if i < |image| then image[i] else d.flash.data[i]);
      d.(flash := Flash(data, ReadArray, true, true, 0))
  }

  function Flush(d: Disk, io: Io): Disk {
    if io.Succeeds() then d.(flash := d.flash.(dirty := false), file := Bytes(d.flash.data))
    else if io.Staged() then d.(file := Missing)
    else d
  }

  /** `nowCycle - m_lastMutateCycle` in 64-bit arithmetic. */
  function Elapsed(now: nat, last: nat): int {
    if now >= last then now - last else now - last + 0x1_0000_0000_0000_0000
  }

  /** The poll gets past the debounce and calls flushToFile. */
  predicate Flushes(f: Flash, now: nat) {
    !f.pending && f.dirty && Elapsed(now, f.lastMutate) >= QUIET
  }

  function Poll(d: Disk, now: nat, io: Io): Disk {
    if d.flash.pending then d.(flash := d.flash.(pending := false, lastMutate := now))
    else if Flushes(d.flash, now) then Flush(d, io)
    else d
  }

  function Force(d: Disk, io: Io): Disk {
    if d.flash.dirty then Flush(d, io) else d
  }

  /** Bus accesses and polls, each with the cycle it happens at. */
  datatype Event =
    | Bus(time: nat, access: Access)
    | PollAt(time: nat, io: Io)
    | ForceAt(time: nat, io: Io)
    | SeedAt(time: nat, image: seq<Cell>)

  function Next(d: Disk, e: Event): Disk {
    match e
    case Bus(_, access) => d.(flash := Do(d.flash, access))
    case PollAt(now, io) => Poll(d, now, io)
    case ForceAt(_, io) => Force(d, io)
    case SeedAt(_, image) => Seed(d, image)
  }

  function Run(d: Disk, es: seq<Event>): Disk {
    if es == [] then d else Next(Run(d, es[..|es| - 1]), es[|es| - 1])
  }

  // ---- Clean means saved ----

  ghost predicate Saved(d: Disk) {
    !d.flash.dirty ==> d.file == Bytes(d.flash.data)
  }

  lemma NextSaved(d: Disk, e: Event)
    requires Saved(d)
    ensures Saved(Next(d, e))
  {
    if e.Bus? && e.access.W? {
      var g := WriteAccess(d.flash, e.access.off, e.access.d);
      assert g.dirty || (!d.flash.dirty && g.data == d.flash.data);
    }
  }

  /** In every run of bus accesses, polls, forced flushes and seeds, with any
      flush free to fail either way, a clean flash is exactly its file. */
  lemma {:induction false} RunSaved(d: Disk, es: seq<Event>)
    requires Saved(d)
    ensures Saved(Run(d, es))
    decreases |es|
  {
    if es != [] {
      RunSaved(d, es[..|es| - 1]);
      NextSaved(Run(d, es[..|es| - 1]), es[|es| - 1]);
    }
  }

  /** loadRaw establishes it if and only if the image it adopts, the file's own
      bytes or the factory-erased array, is what the file holds.  A missing
      file, a file of another size, and a short read of anything but an erased
      image all leave a clean flag over an array that is nowhere on disk. */
  lemma LoadSavedIff(d: Disk, file: File, readAll: bool)
    ensures Saved(LoadRaw(d, file, readAll)) <==>
            Restores(file, readAll) || file == Bytes(Blank())
  {
  }

  /** Seeding a first boot mends it. */
  lemma SeedSaves(d: Disk, image: seq<Cell>)
    requires image != []
    ensures Saved(Seed(d, image))
  {
  }

  /** Power-on: load the backing file, then seed from the firmware image unless
      an image was ever restored. */
  function Boot(d: Disk, file: File, readAll: bool, rom: File): Disk {
    var loaded := LoadRaw(d, file, readAll);
    if !loaded.backed && rom.Bytes? then Seed(loaded, rom.bytes) else loaded
  }

  /** So booting leaves a clean flag over an unsaved array exactly when nothing
      was restored, the file is not itself an erased image, and there is no
      firmware image to seed from or an earlier load keeps it from being used. */
  lemma BootSavedIff(d: Disk, file: File, readAll: bool, rom: File)
    ensures Saved(Boot(d, file, readAll, rom)) <==>
            Restores(file, readAll) || file == Bytes(Blank()) || (!d.backed && rom.Bytes? && rom.bytes != [])
  {
    LoadSavedIff(d, file, readAll);
  }

  /** What loading and seeding leave in the array, cell by cell. */
  lemma LoadedCells(d: Disk, file: File, readAll: bool, i: nat)
    requires i < SIZE
    ensures var r := LoadRaw(d, file, readAll);
            && r.flash.data[i] == (if Restores(file, readAll) then file.bytes[i] else 0xFF)
            && r.flash.mode.ReadArray? && !r.flash.dirty && !r.flash.pending && r.file == file
            && r.flash.lastMutate == d.flash.lastMutate
  {
  }

  lemma SeededCells(d: Disk, image: seq<Cell>, i: nat)
    requires i < SIZE && image != []
    ensures var r := Seed(d, image);
            && r.flash.data[i] == (if i < |image| then image[i] else d.flash.data[i])
            && r.flash.mode.ReadArray? && r.flash.dirty && r.flash.pending && r.file == d.file
            && r.flash.lastMutate == 0 && r.backed == d.backed
  {
  }

  // ---- Every mutation is saved in the end ----

  /** The cycles from `last` to `now` on a 64-bit counter. */
  lemma ElapsedIs(now: Quad, last: Quad)
    ensures 0 <= Elapsed(now, last) < TWO64 && (last + Elapsed(now, last)) % TWO64 == now
  {
  }

  /** The array as it is, nothing pending, last disturbed no later than `now`, and
      saved unless dirty. */
  ghost predicate Calm(d: Disk, data: Image, now: nat) {
    && d.flash.data == data && !d.flash.pending && d.flash.lastMutate <= now
    && (!d.flash.dirty ==> d.file == Bytes(data))
  }

  lemma NextCalm(d: Disk, data: Image, now: nat, e: Event)
    requires Calm(d, data, now) && !Mutates(d, e)
    ensures Calm(Next(d, e), data, now)
  {
    if e.Bus? && e.access.W? { OtherWritesKeep(d.flash, e.access.off, e.access.d); }
  }

  lemma {:induction false} RunCalm(d: Disk, data: Image, now: nat, es: seq<Event>)
    requires Calm(d, data, now)
    requires forall i | 0 <= i < |es| :: !Mutates(Run(d, es[..i]), es[i])
    ensures Calm(Run(d, es), data, now)
    decreases |es|
  {
    if es != [] {
      var k := |es| - 1;
      assert forall i | 0 <= i < k :: es[..k][..i] == es[..i];
      RunCalm(d, data, now, es[..k]);
      assert es[..k] == es[..|es| - 1];
      NextCalm(Run(d, es[..k]), data, now, es[k]);
    }
  }

  /** From a clean or dirty flash that keeps the save invariant: after one poll,
      any events that change nothing - reads, aborted commands, polls and flushes
      that fail - and one poll 8,000,000 cycles after the first whose flush
      succeeds, the file is the array and the flash is clean. */
  lemma QuietTimeSaves(d: Disk, now: nat, first: Io, es: seq<Event>, later: nat, io: Io)
    requires Saved(d) && d.flash.lastMutate <= now && later >= now + 8_000_000 && io.Succeeds()
    requires var d1 := Next(d, PollAt(now, first));
             forall i | 0 <= i < |es| :: !Mutates(Run(d1, es[..i]), es[i])
    ensures var r := Next(Run(Next(d, PollAt(now, first)), es), PollAt(later, io));
            r.file == Bytes(d.flash.data) && r.flash.data == d.flash.data && !r.flash.dirty
  {
    var d1 := Next(d, PollAt(now, first));
    assert Calm(d1, d.flash.data, now);
    RunCalm(d1, d.flash.data, now, es);
  }

  /** A forced flush that succeeds saves at once. */
  lemma ForceSaves(d: Disk, io: Io)
    requires Saved(d) && io.Succeeds()
    ensures var r := Next(d, ForceAt(0, io));
            r.file == Bytes(d.flash.data) && r.flash.data == d.flash.data && !r.flash.dirty
  {
  }

  /** A flush that fails changes nothing but the file: that is lost if the whole
      image had reached the temporary file, because only the rename was left, and
      is the old one otherwise. */
  lemma FailedFlushKeeps(d: Disk, io: Io)
    requires !io.Succeeds() && d.flash.dirty
    ensures var r := Next(d, ForceAt(0, io));
            && r.flash == d.flash && r.backed == d.backed
            && r.file == if io.bound && io.tempOpens && io.flushed && io.put == 0x20_0000 then Missing else d.file
  {
  }

  /** A flash that is clean is not written. */
  lemma CleanIsLeft(d: Disk, io: Io, now: nat)
    requires !d.flash.dirty
    ensures Next(d, ForceAt(now, io)) == d
    ensures !d.flash.pending ==> Next(d, PollAt(now, io)) == d
  {
  }

  // ---- Never flush inside a burst ----

  /** The event changes the array or marks it for persistence. */
  predicate Mutates(d: Disk, e: Event) {
    match e
    case Bus(_, access) =>
      access.W? && var f := d.flash;
      f.mode.Program?
      || (f.mode.Erase5? && (access.d == 0x30 || (access.off == UNLOCK1 && access.d == 0x10)))
    case SeedAt(_, image) => image != []
    case _ => false
  }

  lemma MutatesIff(d: Disk, e: Event)
    requires e.Bus? || e.SeedAt?
    ensures !Mutates(d, e) ==> Next(d, e).flash.data == d.flash.data && Next(d, e).flash.pending == d.flash.pending
    ensures Mutates(d, e) ==> Next(d, e).flash.pending && Next(d, e).flash.dirty
  {
  }

  ghost predicate Monotone(es: seq<Event>) {
    forall i, j | 0 <= i < j < |es| :: es[i].time <= es[j].time
  }

  /** Every mutation so far is pending or older than the recorded cycle. */
  lemma {:induction false} MutationsRecorded(d: Disk, es: seq<Event>, i: nat)
    requires Monotone(es) && i < |es| && Mutates(Run(d, es[..i]), es[i])
    ensures var f := Run(d, es).flash; f.pending || es[i].time <= f.lastMutate
    decreases |es|
  {
    var k := |es| - 1;
    var before := Run(d, es[..k]);
    if i < k {
      assert es[..k][..i] == es[..i];
      MutationsRecorded(d, es[..k], i);
      if es[k].Bus? || es[k].SeedAt? { MutatesIff(before, es[k]); }
      if es[k].Bus? { BusKeepsCycle(before, es[k]); }
    } else {
      assert es[..i] == es[..k];
      MutatesIff(before, es[k]);
    }
  }

  lemma {:induction false} RecordedInPast(d: Disk, es: seq<Event>)
    requires Monotone(es)
    requires forall i | 0 <= i < |es| :: d.flash.lastMutate <= es[i].time
    ensures es != [] ==> Run(d, es).flash.lastMutate <= es[|es| - 1].time
    ensures es == [] ==> Run(d, es) == d
    decreases |es|
  {
    if es != [] {
      var k := |es| - 1;
      RecordedInPast(d, es[..k]);
      if es[k].Bus? { BusKeepsCycle(Run(d, es[..k]), es[k]); }
    }
  }

  lemma BusKeepsCycle(d: Disk, e: Event)
    requires e.Bus?
    ensures Next(d, e).flash.lastMutate == d.flash.lastMutate
  {
  }

  /** The debounce: for monotone times, when a poll writes the file every
      earlier mutation is at least 8,000,000 cycles old. */
  lemma FlushIsQuiet(d: Disk, es: seq<Event>, i: nat, now: nat)
    requires Monotone(es)
    requires forall j | 0 <= j < |es| :: d.flash.lastMutate <= es[j].time <= now
    requires i < |es| && Mutates(Run(d, es[..i]), es[i])
    requires Flushes(Run(d, es).flash, now)
    ensures now - es[i].time >= 8_000_000
  {
    MutationsRecorded(d, es, i);
    RecordedInPast(d, es);
  }

  /** So no debounced flush falls between two mutations that are closer than
      that: one burst of programs is one file write. */
  lemma NoFlushInsideBurst(d: Disk, es: seq<Event>, i: nat, j: nat, k: nat)
    requires Monotone(es) && i < j < k < |es|
    requires forall m | 0 <= m < |es| :: d.flash.lastMutate <= es[m].time
    requires Mutates(Run(d, es[..i]), es[i]) && Mutates(Run(d, es[..k]), es[k])
    requires es[j].PollAt? && Flushes(Run(d, es[..j]).flash, es[j].time)
    ensures es[k].time - es[i].time >= 8_000_000
  {
    assert es[..j][..i] == es[..i];
    FlushIsQuiet(d, es[..j], i, es[j].time);
  }
}

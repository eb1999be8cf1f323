/** The flash as the object the code updates in place, with its backing file
    beside it (chipsetLib/FlashRom.cpp). */
module FlashDevice {
  import opened Arithmetic
  import opened FlashModel
  import opened FlashPersist

  class FlashRom {
    const data: array<Cell>
    var mode: Mode
    var dirty: bool
    var pendingMutation: bool
    var lastMutateCycle: nat
    var file: File
    var backingLoaded: bool

    ghost predicate Valid()
      reads this
    {
      data.Length == SIZE
    }

    ghost function State(): Disk
      requires Valid()
      reads this, data
    {
      Disk(Flash(data[..], mode, dirty, pendingMutation, lastMutateCycle), file, backingLoaded)
    }

    /** Power-on, with nothing bound. */
    constructor ()
      ensures Valid() && fresh(data)
      ensures State() == Disk(Flash(Blank(), ReadArray, false, false, 0), Missing, false)
    {
      data := new Cell[SIZE](i => ERASED);
      mode := ReadArray;
      dirty := false;
      pendingMutation := false;
      lastMutateCycle := 0;
      file := Missing;
      backingLoaded := false;
      new;
      assert data[..] == Blank();
    }

    /** std::fill of the cells lo up to hi with the erased value. */
    method Fill(lo: nat, hi: nat)
      requires Valid() && lo <= hi <= SIZE
      modifies data
      ensures forall i | 0 <= i < SIZE :: data[i] == if lo <= i < hi then ERASED else old(data[i])
    {
      for n := lo to hi
        invariant forall i | 0 <= i < SIZE :: data[i] == if lo <= i < n then ERASED else old(data[i])
      {
        data[n] := ERASED;
      }
    }

    /** Copies an image over the front of the array. */
    method Copy(image: seq<Cell>)
      requires Valid()
      modifies data
      ensures forall i | 0 <= i < SIZE :: data[i] == if i < |image| then image[i] else old(data[i])
    {
      var count := if |image| < SIZE then |image| else SIZE;
      for n := 0 to count
        invariant forall i | 0 <= i < SIZE :: data[i] == if i < n then image[i] else old(data[i])
      {
        data[n] := image[n];
      }
    }

    /** Binds a backing file; readAll says whether the read was not short. */
    method LoadRaw(backing: File, readAll: bool)
      requires Valid()
      modifies this`file, this`mode, this`dirty, this`pendingMutation, this`backingLoaded, data
      ensures State() == FlashPersist.LoadRaw(old(State()), backing, readAll)
    {
      file := backing;
      Fill(0, SIZE);
      mode := ReadArray;
      dirty := false;
      pendingMutation := false;
      if backing.Bytes? && |backing.bytes| == SIZE && readAll {
        Copy(backing.bytes);
        backingLoaded := true;
        assert data[..] == backing.bytes;
      } else {
        assert data[..] == Blank();
      }
    }

    method SeedFrom(image: seq<Cell>)
      requires Valid()
      modifies this`mode, this`dirty, this`pendingMutation, this`lastMutateCycle, data
      ensures State() == Next(old(State()), SeedAt(0, image))
    {
      if image == [] { return; }
      Copy(image);
      MarkMutated(ReadArray);
      lastMutateCycle := 0;
      assert data[..] == Seed(old(State()), image).flash.data;
    }

    method Read(off: nat) returns (b: Cell)
      requires Valid()
      modifies this`mode
      ensures State() == Next(old(State()), Bus(0, R(off)))
      ensures b == ReadValue(old(State()).flash, off)
    {
      match mode {
        case Autosel =>
          b := if off == 0 then 0x01 else if off == 1 then 0xAD else 0;
        case Confirm1 =>
          mode := Confirm0;
          b := 0x80;
        case Confirm0 =>
          mode := ReadArray;
          b := 0x80;
        case _ =>
          b := data[off % SIZE];
      }
    }

    method MarkMutated(next: Mode)
      modifies this`dirty, this`pendingMutation, this`mode
      ensures dirty && pendingMutation && mode == next
    {
      dirty := true;
      pendingMutation := true;
      mode := next;
    }

    method Write(off: nat, d: Cell)
      requires Valid()
      modifies this`mode, this`dirty, this`pendingMutation, data
      ensures State() == Next(old(State()), Bus(0, W(off, d)))
    {
      match mode {
        case Step1 => mode := if off == UNLOCK2 && d == 0x55 then Step2 else ReadArray;
        case Step2 =>
          mode := if off != UNLOCK1 then ReadArray
                  else if d == 0x90 then Autosel
                  else if d == 0xA0 then Program
                  else if d == 0x80 then Erase3
                  else ReadArray;
        case Erase3 => mode := if off == UNLOCK1 && d == 0xAA then Erase4 else ReadArray;
        case Erase4 => mode := if off == UNLOCK2 && d == 0x55 then Erase5 else ReadArray;
        case Erase5 =>
          if off == UNLOCK1 && d == 0x10 {
            Fill(0, SIZE);
            MarkMutated(Confirm1);
            assert data[..] == Blank();
          } else if d == 0x30 {
            var lo := off % SIZE / SECTOR * SECTOR;
            Fill(lo, lo + SECTOR);
            MarkMutated(Confirm1);
            assert data[..] == EraseSector(old(data[..]), off);
          } else {
            mode := ReadArray;
          }
        case Program =>
          data[off % SIZE] := d;
          MarkMutated(ReadArray);
          assert data[..] == old(data[..])[off % SIZE := d];
        case _ =>
          mode := if (mode.ReadArray? || mode.Autosel?) && off == UNLOCK1 && d == 0xAA then Step1 else ReadArray;
      }
    }

    /** Writes the image to a temporary file, removes the target and renames.  A
        success leaves the file equal to the array; a failure never leaves a
        partial image, and loses the old file only after the whole image has
        reached the temporary one. */
    method FlushToFile(io: Io) returns (ok: bool)
      requires Valid()
      modifies this`file
      ensures ok ==> file == Bytes(data[..])
      ensures !ok ==> file == old(file) || (file == Missing && io.put == SIZE && !io.renamed)
      ensures ok == io.Succeeds() && file == Flush(old(State()), io).file
    {
      if !io.bound { return false; }
      if !io.tempOpens { return false; }
      ok := io.put == SIZE;
      if !io.flushed { ok := false; }
      if !ok { return false; }
      file := Missing;
      if !io.renamed { return false; }
      file := Bytes(data[..]);
      return true;
    }

    method TryFlush(now: nat, io: Io)
      requires Valid()
      modifies this`file, this`dirty, this`pendingMutation, this`lastMutateCycle
      ensures State() == Next(old(State()), PollAt(now, io))
    {
      if pendingMutation {
        lastMutateCycle := now;
        pendingMutation := false;
        return;
      }
      if dirty && Elapsed(now, lastMutateCycle) >= QUIET {
        var ok := FlushToFile(io);
        if ok { dirty := false; }
      }
    }

    method ForceFlush(io: Io)
      requires Valid()
      modifies this`file, this`dirty
      ensures State() == Next(old(State()), ForceAt(0, io))
    {
      if dirty {
        var ok := FlushToFile(io);
        if ok { dirty := false; }
      }
    }
  }
}

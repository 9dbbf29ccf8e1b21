/** The disk utility: its commands working in place on the directory buffer and the disk file. */
module BmfsTool {
  import opened Bytes
  import opened Bmfs
  import opened BmfsSweep
  import opened BmfsImage
  import opened BmfsCommands
  import opened BmfsCreate
  import opened BmfsRuns

  class Utility {
    const directory: array<Entry>
    const disk: array<byte>

    ghost function Fs(): State
      reads directory, disk
    {
      State(directory[..], disk[..])
    }

    // The start of main: the directory is read from the disk.
    constructor (d: array<byte>)
      requires DIRECTORY_AT + DIRECTORY_SIZE <= d.Length
      ensures disk == d && fresh(directory) && Fs() == Mount(d[..])
    {
      disk := d;
      var records := DecodeDir(d[DIRECTORY_AT..DIRECTORY_AT + DIRECTORY_SIZE], SLOTS);
      DecodedLength(d[DIRECTORY_AT..DIRECTORY_AT + DIRECTORY_SIZE], SLOTS);
      directory := new Entry[SLOTS](i requires 0 <= i < SLOTS => records[i]);
      new;
      assert directory[..] == records;
    }

    method Find(name: Name) returns (found: bool, slot: nat)
      ensures slot == FindFile(directory[..], name) && (found <==> slot < directory.Length)
    {
      slot := 0;
      while slot < directory.Length
        invariant slot <= directory.Length && slot <= Terminator(directory[..])
        invariant FindFrom(directory[..], name, slot) == FindFile(directory[..], name)
      {
        if EndMark(directory[slot]) {
          assert slot == Terminator(directory[..]);
          slot := directory.Length;
          return false, slot;
        }
        if Live(directory[slot]) && CString(directory[slot].name) == name {
          return true, slot;
        }
        slot := slot + 1;
      }
      return false, slot;
    }

    // The directory buffer written to the disk.
    method Flush()
      requires |EncodeDir(directory[..])| == DIRECTORY_SIZE && DIRECTORY_AT + DIRECTORY_SIZE <= disk.Length
      modifies disk
      ensures Fs() == Flushed(old(disk[..]), directory[..])
    {
      var bytes := EncodeDir(directory[..]);
      Store(disk, DIRECTORY_AT, bytes);
    }

    method Format()
      requires directory.Length == SLOTS && DIRECTORY_AT + DIRECTORY_SIZE <= disk.Length
      modifies directory, disk
      ensures Fs() == Formatted(old(disk[..]))
    {
      for i := 0 to directory.Length
        invariant forall j :: 0 <= j < i ==> directory[j] == EmptyEntry()
        invariant disk[..] == old(disk[..])
      {
        directory[i] := EmptyEntry();
      }
      assert directory[..] == EmptyDir();
      EmptyDirOk(3);
      EncodedSize(EmptyDir(), 3);
      Store(disk, TAG_AT, DiskInfo());
      Flush();
    }

    method Read(name: Name) returns (out: Outcome)
      requires Inv(Fs())
      ensures out == BmfsCommands.Read(Fs(), name)
    {
      hide Inv;
      var found, slot := Find(name);
      if !found {
        return NotFound;
      }
      FileOnDisk(Fs(), slot);
      var at, size := directory[slot].start * BLOCK, directory[slot].size;
      var data: seq<byte> := [];
      for tint := 0 to size
        invariant data == disk[at..at + tint]
      {
        data := data + [disk[at + tint]];
      }
      return Contents(data);
    }

    method Write(name: Name, data: seq<byte>) returns (out: Outcome)
      requires Inv(Fs()) && |data| < I32
      modifies directory, disk
      ensures (Fs(), out) == BmfsCommands.Write(old(Fs()), name, data)
    {
      hide Inv, DirOk, NumBlocks;
      InvFacts(Fs());
      var found, slot := Find(name);
      if !found {
        return NotFound;
      }
      if directory[slot].reserved * BLOCK < |data| {
        return TooBig;
      }
      ghost var fs := Fs();
      var at := directory[slot].start * BLOCK;
      FileOnDisk(fs, slot);
      FileBytes(fs.dir[slot]);
      Store(disk, at, data);
      WrittenDirOk(fs, slot, |data|);
      EncodedSize(fs.dir[slot := fs.dir[slot].(size := |data|)], NumBlocks(fs.disk));
      directory[slot] := directory[slot].(size := |data|);
      assert directory[..] == fs.dir[slot := fs.dir[slot].(size := |data|)];
      Flush();
      return Done;
    }

    method Delete(name: Name) returns (out: Outcome)
      requires Inv(Fs())
      modifies directory, disk
      ensures (Fs(), out) == BmfsCommands.Delete(old(Fs()), name)
    {
      hide Inv, DirOk, NumBlocks;
      InvFacts(Fs());
      var found, slot := Find(name);
      if !found {
        return NotFound;
      }
      ghost var fs := Fs();
      DeletedDirOk(fs, slot);
      EncodedSize(fs.dir[slot := Tombstone(fs.dir[slot])], NumBlocks(fs.disk));
      directory[slot] := Tombstone(directory[slot]);
      assert directory[..] == fs.dir[slot := Tombstone(fs.dir[slot])];
      Flush();
      return Done;
    }

    // The counting loop of `create`: records before the terminator (0 if there is none), and the
    // first record that can be reused.
    method CountRecords() returns (numUsed: nat, firstFree: int)
      ensures numUsed == NumUsed(directory[..])
      ensures firstFree == if FreeSlot(directory[..]) == directory.Length then -1 else FreeSlot(directory[..])
    {
      ghost var dir := directory[..];
      numUsed, firstFree := 0, -1;
      var tint := 0;
      while tint < directory.Length
        invariant tint <= Terminator(dir)
        invariant numUsed == 0
        invariant if firstFree == -1 then (forall i :: 0 <= i < tint ==> !Deleted(dir[i])) && FreeSlotFrom(dir, tint) == FreeSlot(dir)
                  else firstFree == FreeSlot(dir) < directory.Length
      {
        if EndMark(directory[tint]) {
          numUsed := tint;
          if firstFree == -1 {
            firstFree := tint;
          }
          return;
        } else if Deleted(directory[tint]) {
          if firstFree == -1 {
            firstFree := tint;
          }
        }
        tint := tint + 1;
      }
    }

    // The sweep loop of `create` over the sorted copy.
    static method FirstGap(sorted: seq<Entry>, numBlocks: nat, n: nat) returns (newFileStart: nat)
      requires 0 < numBlocks
      ensures newFileStart == Sweep(sorted, 1, numBlocks, n)
    {
      newFileStart := 0;
      var prevFileEnd: nat := 1;
      var tint := 0;
      assert sorted[0..] == sorted;
      while tint < |sorted| + 1
        invariant tint <= |sorted| + 1
        invariant if tint <= |sorted| then Sweep(sorted[tint..], prevFileEnd, numBlocks, n) == Sweep(sorted, 1, numBlocks, n)
                  else Sweep(sorted, 1, numBlocks, n) == 0
      {
        var thisFileStart := if tint == |sorted| || Deleted(sorted[tint]) then numBlocks - 1 else sorted[tint].start;
        if Sub64(thisFileStart, prevFileEnd) >= n {
          newFileStart := prevFileEnd;
          return;
        }
        if tint < |sorted| {
          assert sorted[tint..][1..] == sorted[tint + 1..];
          prevFileEnd := sorted[tint].start + sorted[tint].reserved;
        }
        tint := tint + 1;
      }
    }

    method Create(name: Name, maxsize: nat) returns (out: Outcome)
      requires Inv(Fs()) && FitsName(name) && 0 < maxsize < U32
      modifies directory, disk
      ensures CreateResult(old(Fs()), name, maxsize, Fs(), out)
      ensures out == Done ==>
        var slot := FreeSlot(old(Fs()).dir);
        && slot < |Fs().dir| && Fs().dir[slot].size == 0
        && 2 * Fs().dir[slot].reserved - 1 <= maxsize <= 2 * Fs().dir[slot].reserved
    {
      hide Inv, DirOk, Sweep, Sorts, CreateChoice, NumBlocks, Created;
      ghost var fs := Fs();
      InvFacts(fs);
      var rounded := if maxsize % 2 != 0 then maxsize + 1 else maxsize;
      var found, slot := Find(name);
      if found {
        return Exists;
      }
      var n := rounded / 2;
      var numBlocks := disk.Length / MIB % U32 / 2;
      DiskBlocks(disk[..]);
      var numUsed, firstFree := CountRecords();
      if firstFree == -1 {
        return NoSlot;
      }
      UsedRecords(fs);
      var sorted := Qsort(directory[..numUsed]);
      ghost var perm, k :| Sorts(directory[..numUsed], sorted, perm, k);
      var start := FirstGap(sorted, numBlocks, n);
      CreateWitness(fs, name, maxsize, sorted, perm, k);
      if start == 0 {
        return NoSpace;
      }
      ChoiceBounded(fs, n, sorted, perm, k);
      Place(name, start, n, firstFree, numUsed);
      CreatedRecord(fs, name, n, start);
      return Done;
    }

    // The new record entered and the directory flushed.
    method Place(name: Name, start: nat, n: nat, firstFree: nat, numUsed: nat)
      requires Inv(Fs()) && FitsName(name) && start < U64 && n < U64
      requires firstFree == FreeSlot(directory[..]) < directory.Length && numUsed == NumUsed(directory[..])
      modifies directory, disk
      ensures |old(directory[firstFree]).name| == NAME_SIZE && Fs() == Created(old(Fs()), name, n, start)
    {
      hide Inv, NumBlocks;
      ghost var fs := Fs();
      InvFacts(fs);
      assert directory[firstFree].WellFormed() && directory[1].WellFormed() by {
        assert fs.dir[firstFree].WellFormed() && fs.dir[1].WellFormed();
      }
      PlacedWellFormed(fs, name, start, n);
      directory[firstFree] := Entry(Strcpy(directory[firstFree].name, name), start, n, 0, directory[firstFree].unused);
      if firstFree == numUsed && numUsed + 1 < directory.Length {
        assert directory[numUsed + 1] == fs.dir[numUsed + 1] && fs.dir[numUsed + 1].WellFormed();
        directory[numUsed + 1] := directory[numUsed + 1].(name := directory[numUsed + 1].name[0 := 0]);
      }
      assert directory[..] == Placed(fs.dir, NewRecord(fs.dir, name, start, n));
      Flush();
    }
  }

  // The disk size is counted in MiB by an unsigned int, and two of them make a block.
  lemma DiskBlocks(disk: seq<byte>)
    ensures NumBlocks(disk) == |disk| / MIB % U32 / 2
    ensures |disk| / MIB < U32 ==> NumBlocks(disk) * 2097152 <= |disk| < (NumBlocks(disk) + 1) * 2097152
  {
  }

  // The records that are sorted: live or deleted, with 31-bit block numbers.
  lemma UsedRecords(fs: State)
    requires Inv(fs)
    ensures NumUsed(fs.dir) <= |fs.dir|
    ensures
      var recs := fs.dir[..NumUsed(fs.dir)];
      forall i :: 0 <= i < |recs| ==> (Live(recs[i]) || Deleted(recs[i])) && recs[i].start < I32
  {
    InvFacts(fs);
    forall i | 0 <= i < NumUsed(fs.dir)
      ensures (Live(fs.dir[i]) || Deleted(fs.dir[i])) && fs.dir[i].start < I32
    {
      assert fs.dir[i].WellFormed() && ExtentOk(fs.dir[i], NumBlocks(fs.disk));
    }
  }

  lemma CreateWitness(fs: State, name: Name, maxsize: nat, sorted: seq<Entry>, perm: seq<nat>, k: nat)
    requires Inv(fs) && FitsName(name) && FindFile(fs.dir, name) == |fs.dir| && FreeSlot(fs.dir) < |fs.dir|
    requires Sorts(fs.dir[..NumUsed(fs.dir)], sorted, perm, k)
    ensures |fs.dir[FreeSlot(fs.dir)].name| == NAME_SIZE
    ensures
      var start := Sweep(sorted, 1, NumBlocks(fs.disk), BlocksFor(maxsize));
      if start == 0 then CreateResult(fs, name, maxsize, fs, NoSpace)
      else CreateResult(fs, name, maxsize, Created(fs, name, BlocksFor(maxsize), start), Done)
  {
    hide Sorts, Sweep, NumBlocks;
    assert fs.dir[FreeSlot(fs.dir)].WellFormed();
    var n := BlocksFor(maxsize);
    var start := Sweep(sorted, 1, NumBlocks(fs.disk), n);
    if start == 0 {
      assert CreateChoice(fs, name, n, sorted, fs, NoSpace);
    } else {
      assert CreateChoice(fs, name, n, sorted, Created(fs, name, n, start), Done);
    }
  }

  lemma ChoiceBounded(fs: State, n: nat, sorted: seq<Entry>, perm: seq<nat>, k: nat)
    requires Inv(fs) && Sorts(fs.dir[..NumUsed(fs.dir)], sorted, perm, k)
    ensures Sweep(sorted, 1, NumBlocks(fs.disk), n) <= NumBlocks(fs.disk) < U64
  {
    InvFacts(fs);
    forall i | 0 <= i < |sorted|
      ensures ExtentOk(sorted[i], NumBlocks(fs.disk))
    {
      assert sorted[i] == fs.dir[..NumUsed(fs.dir)][perm[i]] == fs.dir[perm[i]];
    }
    SweepBounded(sorted, 1, NumBlocks(fs.disk), n);
  }

  lemma {:induction false} SweepBounded(es: seq<Entry>, prev: nat, blocks: nat, n: nat)
    requires prev <= blocks && 0 < blocks && forall i :: 0 <= i < |es| ==> ExtentOk(es[i], blocks)
    ensures Sweep(es, prev, blocks, n) <= blocks
  {
    if es != [] {
      SweepBounded(es[1..], es[0].End(), blocks, n);
    }
  }

  lemma PlacedWellFormed(fs: State, name: Name, start: nat, n: nat)
    requires Inv(fs) && FitsName(name) && start < U64 && n < U64 && FreeSlot(fs.dir) < |fs.dir|
    ensures |fs.dir[FreeSlot(fs.dir)].name| == NAME_SIZE
    ensures |EncodeDir(Placed(fs.dir, NewRecord(fs.dir, name, start, n)))| == DIRECTORY_SIZE
    ensures DIRECTORY_AT + DIRECTORY_SIZE <= |fs.disk|
  {
    InvFacts(fs);
    hide Inv, NumBlocks;
    assert fs.dir[FreeSlot(fs.dir)].WellFormed();
    var dir' := Placed(fs.dir, NewRecord(fs.dir, name, start, n));
    forall i | 0 <= i < |dir'|
      ensures dir'[i].WellFormed()
    {
      assert fs.dir[i].WellFormed();
    }
    DirRoundTrip(dir');
  }

  lemma {:induction false} DecodedLength(bs: seq<byte>, slots: nat)
    requires |bs| == RECORD_SIZE * slots
    ensures |DecodeDir(bs, slots)| == slots
    decreases slots
  {
    if slots != 0 {
      DecodedLength(bs[RECORD_SIZE..], slots - 1);
    }
  }
}

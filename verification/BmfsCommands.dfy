/** The commands of the disk utility as functions on the disk, and what each does to the files. */
module BmfsCommands {
  import opened Bytes
  import opened Bmfs
  import opened BmfsSweep
  import opened BmfsImage

  datatype Outcome = Done | Exists | NoSlot | NoSpace | NotFound | TooBig | Contents(data: seq<byte>)

  // ---------- replacing one record ----------

  lemma {:induction false} TerminatorIs(dir: seq<Entry>, n: nat)
    requires n <= |dir| && (n < |dir| ==> EndMark(dir[n]))
    requires forall i :: 0 <= i < n ==> !EndMark(dir[i])
    ensures Terminator(dir) == n
  {
  }

  // The directories agree on which records other than `slot` are listed, and on those records.
  ghost predicate SameElsewhere(dir: seq<Entry>, dir': seq<Entry>, slot: nat) {
    && |dir'| == |dir|
    && forall i :: i != slot ==> (Listed(dir', i) <==> Listed(dir, i)) && (Listed(dir, i) ==> dir'[i] == dir[i])
  }

  // The record `e` fits in next to all listed records but that of `slot`.
  ghost predicate FitsIn(dir: seq<Entry>, slot: nat, e: Entry, blocks: nat) {
    && e.WellFormed() && ExtentOk(e, blocks) && !EndMark(e)
    && (Live(e) ==> FileOk(e) && forall i :: Listed(dir, i) && i != slot ==> Separate(dir[i], e) && Separate(e, dir[i]))
  }

  lemma ReplaceRecord(dir: seq<Entry>, slot: nat, e: Entry, blocks: nat)
    requires DirOk(dir, blocks) && slot < Terminator(dir) && FitsIn(dir, slot, e, blocks)
    ensures DirOk(dir[slot := e], blocks) && SameElsewhere(dir, dir[slot := e], slot)
    ensures Terminator(dir[slot := e]) == Terminator(dir) && (Listed(dir[slot := e], slot) <==> Live(e))
  {
    TerminatorIs(dir[slot := e], Terminator(dir));
  }

  // A record in place of the terminator, the next record becoming the terminator.
  function Extended(dir: seq<Entry>, e: Entry): seq<Entry>
    requires Terminator(dir) < |dir|
  {
    var n := Terminator(dir);
    var dir1 := dir[n := e];
    if n + 1 < |dir| && |dir[n + 1].name| > 0
    then dir1[n + 1 := dir[n + 1].(name := dir[n + 1].name[0 := 0])] else dir1
  }

  lemma ExtendDirectory(dir: seq<Entry>, e: Entry, blocks: nat)
    requires DirOk(dir, blocks) && Terminator(dir) < |dir| && FitsIn(dir, Terminator(dir), e, blocks)
    ensures
      var n := Terminator(dir);
      var dir' := Extended(dir, e);
      && DirOk(dir', blocks) && SameElsewhere(dir, dir', n)
      && Terminator(dir') == n + 1 && (Listed(dir', n) <==> Live(e))
  {
    var n := Terminator(dir);
    var dir' := Extended(dir, e);
    ExtendedShape(dir, e);
    hide Extended, Separate, FileOk, ExtentOk, Entry.WellFormed, SameElsewhere, Terminator;
    ChangedDirectory(dir, dir', n, blocks);
  }

  lemma ExtendedShape(dir: seq<Entry>, e: Entry)
    requires |dir| == SLOTS && (forall i :: 0 <= i < |dir| ==> dir[i].WellFormed())
    requires Terminator(dir) < |dir| && e.WellFormed() && !EndMark(e)
    ensures
      var n := Terminator(dir);
      var dir' := Extended(dir, e);
      && |dir'| == |dir| && dir'[n] == e && (forall i :: 0 <= i < n ==> dir'[i] == dir[i])
      && (forall i :: 0 <= i < |dir'| ==> dir'[i].WellFormed())
      && Terminator(dir') == n + 1 && SameElsewhere(dir, dir', n) && (Listed(dir', n) <==> Live(e))
  {
    var n := Terminator(dir);
    var dir' := Extended(dir, e);
    TerminatorIs(dir', n + 1);
    SameBelow(dir, dir', n);
  }

  lemma SameBelow(dir: seq<Entry>, dir': seq<Entry>, n: nat)
    requires |dir'| == |dir| && n < |dir| && Terminator(dir) == n && Terminator(dir') == n + 1
    requires forall i :: 0 <= i < n ==> dir'[i] == dir[i]
    ensures SameElsewhere(dir, dir', n)
  {
    hide Terminator;
  }

  lemma ChangedDirectory(dir: seq<Entry>, dir': seq<Entry>, slot: nat, blocks: nat)
    requires DirOk(dir, blocks) && SameElsewhere(dir, dir', slot) && slot < |dir|
    requires FitsIn(dir, slot, dir'[slot], blocks)
    requires forall i :: 0 <= i < |dir'| ==> dir'[i].WellFormed()
    requires forall i :: 0 <= i < Terminator(dir') && i != slot ==> ExtentOk(dir'[i], blocks)
    ensures DirOk(dir', blocks)
  {
    hide Separate, FileOk, ExtentOk, Entry.WellFormed;
    forall i, j | Listed(dir', i) && Listed(dir', j) && i != j
      ensures Separate(dir'[i], dir'[j])
    {
      if i != slot { assert Listed(dir, i); }
      if j != slot { assert Listed(dir, j); }
    }
  }

  // ---------- flushing, and what it does to the files ----------

  // The directory written to memory and to the disk.
  function Flushed(disk: seq<byte>, dir: seq<Entry>): State {
    if DIRECTORY_AT + |EncodeDir(dir)| <= |disk|
    then State(dir, Blit(disk, DIRECTORY_AT, EncodeDir(dir)))
    else State(dir, disk)
  }

  // Only the data area changed, if anything.
  ghost predicate SameSystemArea(disk: seq<byte>, disk': seq<byte>) {
    |disk'| == |disk| && BLOCK <= |disk| && disk'[..BLOCK] == disk[..BLOCK]
  }

  lemma FlushKeepsInv(fs: State, disk: seq<byte>, dir: seq<Entry>)
    requires Inv(fs) && SameSystemArea(fs.disk, disk) && DirOk(dir, NumBlocks(fs.disk))
    ensures Inv(Flushed(disk, dir)) && |Flushed(disk, dir).disk| == |disk|
    ensures Flushed(disk, dir).disk[DIRECTORY_AT + DIRECTORY_SIZE..] == disk[DIRECTORY_AT + DIRECTORY_SIZE..]
    ensures Flushed(disk, dir).disk[..DIRECTORY_AT] == disk[..DIRECTORY_AT]
  {
    hide DirOk, NumBlocks, Encode;
    EncodedSize(dir, NumBlocks(fs.disk));
    var disk' := Blit(disk, DIRECTORY_AT, EncodeDir(dir));
    BlitInside(disk, DIRECTORY_AT, EncodeDir(dir));
    BlitApart(disk, DIRECTORY_AT, EncodeDir(dir), TAG_AT, TAG_AT + TAG_SIZE);
    SliceOfPrefix(disk, BLOCK, TAG_AT, TAG_AT + TAG_SIZE);
    SliceOfPrefix(fs.disk, BLOCK, TAG_AT, TAG_AT + TAG_SIZE);
    SameNumBlocks(fs.disk, disk');
  }

  lemma EncodedSize(dir: seq<Entry>, blocks: nat)
    requires DirOk(dir, blocks)
    ensures |EncodeDir(dir)| == DIRECTORY_SIZE
  {
    DirRoundTrip(dir);
  }

  lemma SameNumBlocks(disk: seq<byte>, disk': seq<byte>)
    requires |disk'| == |disk|
    ensures NumBlocks(disk') == NumBlocks(disk)
  {
  }

  lemma SliceOfPrefix(s: seq<byte>, n: nat, lo: nat, hi: nat)
    requires lo <= hi <= n <= |s|
    ensures s[..n][lo..hi] == s[lo..hi]
  {
  }

  lemma SliceOfSuffix(s: seq<byte>, n: nat, lo: nat, hi: nat)
    requires n <= lo <= hi <= |s|
    ensures s[n..][lo - n..hi - n] == s[lo..hi]
  {
  }

  // When only one slot changes, and the data of the other files stays, the files change only in
  // that one: its old name is gone, its new name stands for its new data.
  lemma AbsReplace(fs: State, fs': State, slot: nat)
    requires Inv(fs) && Inv(fs') && SameElsewhere(fs.dir, fs'.dir, slot) && slot < |fs.dir|
    requires forall i :: Listed(fs.dir, i) && i != slot ==> Data(fs', i) == Data(fs, i)
    ensures
      var rest := if Listed(fs.dir, slot) then Abs(fs) - {CString(fs.dir[slot].name)} else Abs(fs);
      Abs(fs') == if Listed(fs'.dir, slot) then rest[CString(fs'.dir[slot].name) := FileAt(fs', slot)] else rest
  {
    hide Inv, FileNamed, SameElsewhere, Abs;
    var rest := if Listed(fs.dir, slot) then Abs(fs) - {CString(fs.dir[slot].name)} else Abs(fs);
    if Listed(fs'.dir, slot) { AbsAt(fs', slot); }
    var abs' := if Listed(fs'.dir, slot) then rest[CString(fs'.dir[slot].name) := FileAt(fs', slot)] else rest;
    forall name | name in Abs(fs')
      ensures name in abs' && Abs(fs')[name] == abs'[name]
    {
      var i := NamedSlot(fs', name);
      if i != slot { StaysFile(fs, fs', slot, i); }
    }
    forall name | name in abs'
      ensures name in Abs(fs')
    {
      if !(Listed(fs'.dir, slot) && name == CString(fs'.dir[slot].name)) {
        var i := NamedSlot(fs, name);
        StaysFile(fs, fs', slot, i);
      }
    }
  }

  // A file in another slot is there before and after, under a name that the slot does not bear.
  lemma StaysFile(fs: State, fs': State, slot: nat, i: nat)
    requires Inv(fs) && Inv(fs') && SameElsewhere(fs.dir, fs'.dir, slot) && slot < |fs.dir|
    requires i != slot && (Listed(fs.dir, i) || Listed(fs'.dir, i))
    requires Listed(fs.dir, i) ==> Data(fs', i) == Data(fs, i)
    ensures Listed(fs.dir, i) && Listed(fs'.dir, i)
    ensures
      var name := CString(fs.dir[i].name);
      && CString(fs'.dir[i].name) == name && name in Abs(fs) && name in Abs(fs') && Abs(fs')[name] == Abs(fs)[name]
      && (Listed(fs.dir, slot) ==> CString(fs.dir[slot].name) != name)
      && (Listed(fs'.dir, slot) ==> CString(fs'.dir[slot].name) != name)
  {
    hide Inv, FileNamed, SameElsewhere, Abs;
    Elsewhere(fs.dir, fs'.dir, slot, i);
    AbsAt(fs, i);
    AbsAt(fs', i);
    OtherName(fs, i, slot);
    OtherName(fs', i, slot);
  }

  lemma Elsewhere(dir: seq<Entry>, dir': seq<Entry>, slot: nat, i: int)
    requires SameElsewhere(dir, dir', slot) && i != slot && (Listed(dir, i) || Listed(dir', i))
    ensures Listed(dir, i) && Listed(dir', i) && dir'[i] == dir[i]
  {
  }

  lemma NamedSlot(fs: State, name: Name) returns (i: nat)
    requires Inv(fs) && name in Abs(fs)
    ensures Listed(fs.dir, i) && CString(fs.dir[i].name) == name
  {
    i :| 0 <= i < |fs.dir| && Listed(fs.dir, i) && CString(fs.dir[i].name) == name;
  }

  lemma OtherName(fs: State, i: int, j: int)
    requires Inv(fs) && Listed(fs.dir, i) && i != j
    ensures Listed(fs.dir, j) ==> CString(fs.dir[i].name) != CString(fs.dir[j].name)
  {
    assert Listed(fs.dir, j) ==> Separate(fs.dir[i], fs.dir[j]);
  }

  // A flush leaves the bytes of every file alone.
  lemma FlushKeepsSlice(disk: seq<byte>, disk': seq<byte>, from: nat, at: nat, len: nat)
    requires |disk'| == |disk| && from <= at && from <= |disk| && disk'[from..] == disk[from..]
    ensures Slice(disk', at, len) == Slice(disk, at, len)
  {
    if at + len <= |disk| {
      SliceOfSuffix(disk', from, at, at + len);
      SliceOfSuffix(disk, from, at, at + len);
    }
  }

  // After a flush the other files have their data, if it was still on the disk.
  lemma FlushedFiles(fs: State, disk: seq<byte>, dir: seq<Entry>, slot: nat)
    requires Inv(fs) && SameSystemArea(fs.disk, disk) && DirOk(dir, NumBlocks(fs.disk))
    requires SameElsewhere(fs.dir, dir, slot)
    requires forall i :: Listed(fs.dir, i) && i != slot ==> Data(State(fs.dir, disk), i) == Data(fs, i)
    ensures forall i :: Listed(fs.dir, i) && i != slot ==> Data(Flushed(disk, dir), i) == Data(fs, i)
  {
    hide Inv, DirOk, NumBlocks, Flushed;
    FlushKeepsInv(fs, disk, dir);
    FlushedDir(disk, dir);
    forall i | Listed(fs.dir, i) && i != slot
      ensures Data(Flushed(disk, dir), i) == Data(fs, i)
    {
      FileOnDisk(fs, i);
      FlushKeepsSlice(disk, Flushed(disk, dir).disk, DIRECTORY_AT + DIRECTORY_SIZE, fs.dir[i].start * BLOCK, fs.dir[i].size);
      assert Data(State(fs.dir, disk), i) == Data(fs, i);
    }
  }

  lemma FlushedDir(disk: seq<byte>, dir: seq<Entry>)
    ensures Flushed(disk, dir).dir == dir
  {
  }

  lemma InvFacts(fs: State)
    requires Inv(fs)
    ensures |fs.dir| == SLOTS && DirOk(fs.dir, NumBlocks(fs.disk)) && SameSystemArea(fs.disk, fs.disk)
    ensures 3 <= NumBlocks(fs.disk) < I32
  {
  }

  // One slot rewritten and flushed, after the data area was perhaps written: the disk stays
  // consistent, the files change only in that slot, and nothing of the first block changes but
  // the directory.
  lemma RewriteSlot(fs: State, disk: seq<byte>, dir: seq<Entry>, slot: nat)
    requires Inv(fs) && SameSystemArea(fs.disk, disk) && DirOk(dir, NumBlocks(fs.disk))
    requires slot < |fs.dir| && SameElsewhere(fs.dir, dir, slot)
    requires forall i :: Listed(fs.dir, i) && i != slot ==> Data(State(fs.dir, disk), i) == Data(fs, i)
    ensures
      var fs' := Flushed(disk, dir);
      && fs'.dir == dir && Inv(fs') && OnlyDirectory(fs.disk, fs'.disk)
      && |fs'.disk| == |disk| && fs'.disk[DIRECTORY_AT + DIRECTORY_SIZE..] == disk[DIRECTORY_AT + DIRECTORY_SIZE..]
      && var rest := if Listed(fs.dir, slot) then Abs(fs) - {CString(fs.dir[slot].name)} else Abs(fs);
         Abs(fs') == if Listed(dir, slot) then rest[CString(dir[slot].name) := FileAt(fs', slot)] else rest
  {
    hide Inv, DirOk, NumBlocks, Flushed, SameElsewhere, FileAt, Listed;
    FlushedDir(disk, dir);
    FlushKeepsInv(fs, disk, dir);
    FlushedFiles(fs, disk, dir, slot);
    AbsReplace(fs, Flushed(disk, dir), slot);
    SystemAreaKept(fs.disk, disk, Flushed(disk, dir).disk);
  }

  // Of the first block only the directory may differ: the boot sector, the tag and the boot
  // payload stay.
  ghost predicate OnlyDirectory(disk: seq<byte>, disk': seq<byte>) {
    && |disk'| == |disk| && BLOCK <= |disk|
    && disk'[..DIRECTORY_AT] == disk[..DIRECTORY_AT]
    && disk'[DIRECTORY_AT + DIRECTORY_SIZE..BLOCK] == disk[DIRECTORY_AT + DIRECTORY_SIZE..BLOCK]
  }

  lemma SystemAreaKept(d0: seq<byte>, d1: seq<byte>, d2: seq<byte>)
    requires SameSystemArea(d0, d1) && |d2| == |d1|
    requires d2[..DIRECTORY_AT] == d1[..DIRECTORY_AT]
    requires d2[DIRECTORY_AT + DIRECTORY_SIZE..] == d1[DIRECTORY_AT + DIRECTORY_SIZE..]
    ensures OnlyDirectory(d0, d2)
  {
    var lo := DIRECTORY_AT + DIRECTORY_SIZE;
    SliceOfPrefix(d0, BLOCK, 0, DIRECTORY_AT);
    SliceOfPrefix(d1, BLOCK, 0, DIRECTORY_AT);
    SliceOfPrefix(d0, BLOCK, lo, BLOCK);
    SliceOfPrefix(d1, BLOCK, lo, BLOCK);
    SliceOfSuffix(d1, lo, lo, BLOCK);
    SliceOfSuffix(d2, lo, lo, BLOCK);
  }

  // ---------- delete ----------

  function Tombstone(e: Entry): Entry {
    if e.name == [] then e else e.(name := e.name[0 := 1])
  }

  ghost function Delete(fs: State, name: Name): (State, Outcome)
    requires Inv(fs)
  {
    var slot := FindFile(fs.dir, name);
    if slot == |fs.dir| then (fs, NotFound)
    else
      var dir := fs.dir[slot := Tombstone(fs.dir[slot])];
      (Flushed(fs.disk, dir), Done)
  }

  lemma DeletedDirOk(fs: State, slot: nat)
    requires Inv(fs) && Listed(fs.dir, slot)
    ensures
      var dir := fs.dir[slot := Tombstone(fs.dir[slot])];
      && DirOk(dir, NumBlocks(fs.disk)) && SameElsewhere(fs.dir, dir, slot)
      && !Listed(dir, slot)
  {
    ReplaceRecord(fs.dir, slot, Tombstone(fs.dir[slot]), NumBlocks(fs.disk));
  }

  // `delete` removes exactly the named file, or reports that there is none.
  lemma DeleteMeaning(fs: State, name: Name)
    requires Inv(fs)
    ensures
      var (fs', out) := Delete(fs, name);
      && Inv(fs') && OnlyDirectory(fs.disk, fs'.disk)
      && (out == NotFound <==> name !in Abs(fs)) && (out == NotFound || out == Done)
      && (out == NotFound ==> fs' == fs)
      && (out == Done ==> Abs(fs') == Abs(fs) - {name} && SameElsewhere(fs.dir, fs'.dir, FindFile(fs.dir, name)))
  {
    InvFacts(fs);
    hide Inv, DirOk, NumBlocks, Flushed, SameElsewhere, FileAt;
    var slot := FindFile(fs.dir, name);
    FoundIff(fs, name);
    if slot < |fs.dir| {
      DeletedDirOk(fs, slot);
      RewriteSlot(fs, fs.disk, fs.dir[slot := Tombstone(fs.dir[slot])], slot);
    }
  }

  lemma FoundIff(fs: State, name: Name)
    requires Inv(fs)
    ensures FindFile(fs.dir, name) < |fs.dir| <==> name in Abs(fs)
    ensures name in Abs(fs) ==> Abs(fs)[name] == FileAt(fs, FindFile(fs.dir, name))
  {
    if FindFile(fs.dir, name) < |fs.dir| { AbsAt(fs, FindFile(fs.dir, name)); }
  }

  // ---------- write and read ----------

  ghost function Write(fs: State, name: Name, data: seq<byte>): (State, Outcome)
    requires Inv(fs)
  {
    var slot := FindFile(fs.dir, name);
    if slot == |fs.dir| then (fs, NotFound)
    else if fs.dir[slot].reserved * BLOCK < |data| then (fs, TooBig)
    else
      (Flushed(Overwritten(fs.disk, fs.dir[slot].start * BLOCK, data),
               fs.dir[slot := fs.dir[slot].(size := |data|)]), Done)
  }

  function Overwritten(disk: seq<byte>, at: nat, data: seq<byte>): (r: seq<byte>)
    ensures |r| == |disk|
  {
    if at + |data| <= |disk| then Blit(disk, at, data) else disk
  }

  ghost function Read(fs: State, name: Name): Outcome
    requires Inv(fs)
  {
    var slot := FindFile(fs.dir, name);
    if slot == |fs.dir| then NotFound else Contents(Data(fs, slot))
  }

  // `read` gives the bytes of the named file.
  lemma ReadMeaning(fs: State, name: Name)
    requires Inv(fs)
    ensures Read(fs, name) == if name in Abs(fs) then Contents(Abs(fs)[name].data) else NotFound
  {
    FoundIff(fs, name);
  }

  lemma WrittenDirOk(fs: State, slot: nat, size: nat)
    requires Inv(fs) && Listed(fs.dir, slot) && size <= fs.dir[slot].reserved * BLOCK && size < I32
    ensures
      var dir := fs.dir[slot := fs.dir[slot].(size := size)];
      && DirOk(dir, NumBlocks(fs.disk)) && SameElsewhere(fs.dir, dir, slot) && Listed(dir, slot)
  {
    forall i | Listed(fs.dir, i) && i != slot
      ensures Separate(fs.dir[i], fs.dir[slot].(size := size)) && Separate(fs.dir[slot].(size := size), fs.dir[i])
    {
      assert Separate(fs.dir[i], fs.dir[slot]) && Separate(fs.dir[slot], fs.dir[i]);
    }
    ReplaceRecord(fs.dir, slot, fs.dir[slot].(size := size), NumBlocks(fs.disk));
  }

  // Bytes written into one extent stay clear of the first block and of every other file.
  lemma WrittenExtent(fs: State, slot: nat, data: seq<byte>)
    requires Inv(fs) && Listed(fs.dir, slot) && |data| <= fs.dir[slot].reserved * BLOCK
    ensures
      var at := fs.dir[slot].start * BLOCK;
      var disk := Overwritten(fs.disk, at, data);
      && SameSystemArea(fs.disk, disk) && Slice(disk, at, |data|) == data
      && forall i :: Listed(fs.dir, i) && i != slot ==> Data(State(fs.dir, disk), i) == Data(fs, i)
  {
    hide Inv, Overwritten, Slice, SameSystemArea;
    var at := fs.dir[slot].start * BLOCK;
    FileOnDisk(fs, slot);
    FileBytes(fs.dir[slot]);
    OverwrittenHere(fs.disk, at, data);
    forall i | Listed(fs.dir, i) && i != slot
      ensures Data(State(fs.dir, Overwritten(fs.disk, at, data)), i) == Data(fs, i)
    {
      FileOnDisk(fs, i);
      ApartOnDisk(fs, slot, i);
      OverwrittenElsewhere(fs.disk, at, data, fs.dir[i].start * BLOCK, fs.dir[i].size);
    }
  }

  lemma FileBytes(e: Entry)
    ensures e.End() * BLOCK == e.start * BLOCK + e.reserved * BLOCK
  {
  }

  lemma OverwrittenHere(disk: seq<byte>, at: nat, data: seq<byte>)
    requires BLOCK <= at && at + |data| <= |disk|
    ensures SameSystemArea(disk, Overwritten(disk, at, data)) && Slice(Overwritten(disk, at, data), at, |data|) == data
  {
    BlitInside(disk, at, data);
    BlitApart(disk, at, data, 0, BLOCK);
  }

  lemma OverwrittenElsewhere(disk: seq<byte>, at: nat, data: seq<byte>, lo: nat, len: nat)
    requires at + |data| <= |disk| && (lo + len <= at || at + |data| <= lo)
    ensures Slice(Overwritten(disk, at, data), lo, len) == Slice(disk, lo, len)
  {
    if lo + len <= |disk| { BlitApart(disk, at, data, lo, lo + len); }
  }

  lemma ApartOnDisk(fs: State, i: nat, j: nat)
    requires Inv(fs) && Listed(fs.dir, i) && Listed(fs.dir, j) && i != j
    ensures fs.dir[i].End() * BLOCK <= fs.dir[j].start * BLOCK || fs.dir[j].End() * BLOCK <= fs.dir[i].start * BLOCK
  {
    assert Separate(fs.dir[i], fs.dir[j]);
  }

  // `write` makes the named file hold exactly the given bytes and changes no other file; it
  // refuses, without any change, a file that is not there or that reserved too few blocks.
  lemma WriteMeaning(fs: State, name: Name, data: seq<byte>)
    requires Inv(fs) && |data| < I32
    ensures
      var (fs', out) := Write(fs, name, data);
      && Inv(fs') && OnlyDirectory(fs.disk, fs'.disk)
      && out == (if name !in Abs(fs) then NotFound else if Abs(fs)[name].reserved * BLOCK < |data| then TooBig else Done)
      && (out != Done ==> fs' == fs)
      && (out == Done ==> Abs(fs') == Abs(fs)[name := Abs(fs)[name].(data := data)])
      && (out == Done ==> SameElsewhere(fs.dir, fs'.dir, FindFile(fs.dir, name)))
      && (out == Done ==> Read(fs', name) == Contents(data))
  {
    InvFacts(fs);
    WriteCases(fs, name, data);
    hide Inv, DirOk, NumBlocks, Flushed, SameElsewhere, Overwritten, Slice, Listed, Abs, CString, OnlyDirectory, Read, Write, FindFile;
    if name in Abs(fs) && |data| <= Abs(fs)[name].reserved * BLOCK {
      WriteDone(fs, FindFile(fs.dir, name), data);
      ReadsAs(Write(fs, name, data).0, name, data);
    } else {
      Unchanged(fs);
    }
  }

  lemma Unchanged(fs: State)
    requires Inv(fs)
    ensures OnlyDirectory(fs.disk, fs.disk)
  {
  }

  // The three ways `write` can go.
  lemma WriteCases(fs: State, name: Name, data: seq<byte>)
    requires Inv(fs)
    ensures name !in Abs(fs) ==> Write(fs, name, data) == (fs, NotFound)
    ensures name in Abs(fs) && Abs(fs)[name].reserved * BLOCK < |data| ==> Write(fs, name, data) == (fs, TooBig)
    ensures name in Abs(fs) && |data| <= Abs(fs)[name].reserved * BLOCK ==>
      var slot := FindFile(fs.dir, name);
      && slot < |fs.dir| && Listed(fs.dir, slot) && CString(fs.dir[slot].name) == name
      && Abs(fs)[name] == FileAt(fs, slot) && |data| <= fs.dir[slot].reserved * BLOCK
      && Write(fs, name, data) == (Flushed(Overwritten(fs.disk, fs.dir[slot].start * BLOCK, data), fs.dir[slot := fs.dir[slot].(size := |data|)]), Done)
  {
    FoundIff(fs, name);
    hide Inv, Flushed, Overwritten, Slice, Listed, Abs, CString;
  }

  lemma ReadsAs(fs: State, name: Name, data: seq<byte>)
    requires Inv(fs)
    ensures name in Abs(fs) && Abs(fs)[name].data == data ==> Read(fs, name) == Contents(data)
  {
    ReadMeaning(fs, name);
  }

  lemma WriteDone(fs: State, slot: nat, data: seq<byte>)
    requires Inv(fs) && Listed(fs.dir, slot) && |data| <= fs.dir[slot].reserved * BLOCK && |data| < I32
    ensures
      var fs' := Flushed(Overwritten(fs.disk, fs.dir[slot].start * BLOCK, data), fs.dir[slot := fs.dir[slot].(size := |data|)]);
      && Inv(fs') && OnlyDirectory(fs.disk, fs'.disk) && SameElsewhere(fs.dir, fs'.dir, slot)
      && Abs(fs') == Abs(fs)[CString(fs.dir[slot].name) := File(fs.dir[slot].reserved, data)]
  {
    InvFacts(fs);
    FlushedDir(Overwritten(fs.disk, fs.dir[slot].start * BLOCK, data), fs.dir[slot := fs.dir[slot].(size := |data|)]);
    hide Inv, DirOk, NumBlocks, Flushed, SameElsewhere, Overwritten, Slice, CString, SameSystemArea, OnlyDirectory, Abs;
    WrittenDirOk(fs, slot, |data|);
    WrittenExtent(fs, slot, data);
    WriteFlush(fs, Overwritten(fs.disk, fs.dir[slot].start * BLOCK, data), fs.dir[slot := fs.dir[slot].(size := |data|)], slot, data);
  }

  // The bytes lie where the starting block says, 2 MiB to a block.
  lemma WrittenAt(fs: State, name: Name, data: seq<byte>)
    requires Inv(fs) && |data| < I32 && Write(fs, name, data).1 == Done
    ensures
      var slot := FindFile(fs.dir, name);
      var fs' := Write(fs, name, data).0;
      && slot < |fs.dir| && fs.dir[slot].start * 2097152 + |data| <= |fs'.disk|
      && fs'.disk[fs.dir[slot].start * 2097152..fs.dir[slot].start * 2097152 + |data|] == data
      && fs'.dir[slot] == fs.dir[slot].(size := |data|)
  {
    var slot := FindFile(fs.dir, name);
    var at := fs.dir[slot].start * BLOCK;
    var disk := Overwritten(fs.disk, at, data);
    InvFacts(fs);
    FileOnDisk(fs, slot);
    FileBytes(fs.dir[slot]);
    OverwrittenHere(fs.disk, at, data);
    var dir := fs.dir[slot := fs.dir[slot].(size := |data|)];
    FlushedDir(disk, dir);
    WrittenDirOk(fs, slot, |data|);
    FlushKeepsInv(fs, disk, dir);
    FlushKeepsSlice(disk, Flushed(disk, dir).disk, DIRECTORY_AT + DIRECTORY_SIZE, at, |data|);
  }

  lemma WriteFlush(fs: State, disk: seq<byte>, dir: seq<Entry>, slot: nat, data: seq<byte>)
    requires Inv(fs) && Listed(fs.dir, slot) && Listed(dir, slot) && DirOk(dir, NumBlocks(fs.disk)) && SameElsewhere(fs.dir, dir, slot)
    requires dir[slot] == fs.dir[slot].(size := |data|)
    requires SameSystemArea(fs.disk, disk) && Slice(disk, fs.dir[slot].start * BLOCK, |data|) == data
    requires forall i :: Listed(fs.dir, i) && i != slot ==> Data(State(fs.dir, disk), i) == Data(fs, i)
    ensures
      var fs' := Flushed(disk, dir);
      && Inv(fs') && OnlyDirectory(fs.disk, fs'.disk)
      && Abs(fs') == Abs(fs)[CString(fs.dir[slot].name) := File(fs.dir[slot].reserved, data)]
  {
    hide Inv, DirOk, NumBlocks, Flushed, SameElsewhere, Slice, CString, OnlyDirectory, Abs;
    RewriteSlot(fs, disk, dir, slot);
    FileOnDisk(fs, slot);
    FlushKeepsSlice(disk, Flushed(disk, dir).disk, DIRECTORY_AT + DIRECTORY_SIZE, fs.dir[slot].start * BLOCK, |data|);
  }
}

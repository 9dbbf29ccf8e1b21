/** Whole runs of disk utility commands, each started from the directory on the disk. */
module BmfsRuns {
  import opened Bytes
  import opened Bmfs
  import opened BmfsSweep
  import opened BmfsImage
  import opened BmfsCommands
  import opened BmfsCreate

  // ---------- format and mount ----------

  function EmptyEntry(): Entry {
    Entry(seq(NAME_SIZE, _ => 0), 0, 0, 0, seq(8, _ => 0))
  }

  function EmptyDir(): (r: seq<Entry>)
    ensures |r| == SLOTS
  {
    seq(SLOTS, _ => EmptyEntry())
  }

  function Formatted(disk: seq<byte>): State
    requires DIRECTORY_AT + DIRECTORY_SIZE <= |disk|
  {
    Flushed(Blit(disk, TAG_AT, DiskInfo()), EmptyDir())
  }

  // `format` makes an empty file system of any disk of at least three blocks.
  lemma FormatMeaning(disk: seq<byte>)
    requires 3 <= NumBlocks(disk) && |disk| / MIB < U32
    ensures DIRECTORY_AT + DIRECTORY_SIZE <= |disk|
    ensures Inv(Formatted(disk)) && Abs(Formatted(disk)) == map[]
    ensures Formatted(disk).disk[DIRECTORY_AT + DIRECTORY_SIZE..] == disk[DIRECTORY_AT + DIRECTORY_SIZE..]
    ensures Formatted(disk).disk[..TAG_AT] == disk[..TAG_AT]
  {
    hide DirOk, NumBlocks, Encode;
    DiskHasDirectory(disk);
    var disk1 := Blit(disk, TAG_AT, DiskInfo());
    EmptyDirOk(NumBlocks(disk));
    EncodedSize(EmptyDir(), NumBlocks(disk));
    var enc := EncodeDir(EmptyDir());
    BlitInside(disk, TAG_AT, DiskInfo());
    BlitInside(disk1, DIRECTORY_AT, enc);
    BlitApart(disk1, DIRECTORY_AT, enc, TAG_AT, TAG_AT + TAG_SIZE);
    SameNumBlocks(disk, Blit(disk1, DIRECTORY_AT, enc));
    BlitApart(disk, TAG_AT, DiskInfo(), 0, TAG_AT);
    BlitApart(disk1, DIRECTORY_AT, enc, 0, TAG_AT);
  }

  lemma DiskHasDirectory(disk: seq<byte>)
    requires 3 <= NumBlocks(disk) && |disk| / MIB < U32
    ensures DIRECTORY_AT + DIRECTORY_SIZE <= |disk|
  {
  }

  lemma EmptyDirOk(blocks: nat)
    ensures Terminator(EmptyDir()) == 0 && DirOk(EmptyDir(), blocks) && Names(EmptyDir()) == {}
  {
    TerminatorIs(EmptyDir(), 0);
  }

  // The bytes that `format` leaves: the marker 1 KiB in, and an empty directory 4 KiB in.
  lemma FormatBytes(disk: seq<byte>)
    requires 8192 <= |disk|
    ensures
      var d := Formatted(disk).disk;
      && |d| == |disk| && d[1024..1028] == [66, 77, 70, 83] && (forall a :: 1028 <= a < 1536 ==> d[a] == 0)
      && (forall a :: 4096 <= a < 8192 ==> d[a] == 0)
      && (forall a :: 0 <= a < |d| && !(1024 <= a < 1536 || 4096 <= a < 8192) ==> d[a] == disk[a])
  {
    FormattedIs(disk);
    MarkerInfo();
    var info, dir := DiskInfo(), EncodeDir(EmptyDir());
    hide *;
    TwoBlits(disk, info, dir);
    MarkerBytes(info, Formatted(disk).disk);
  }

  lemma TwoBlits(disk: seq<byte>, info: seq<byte>, dir: seq<byte>)
    requires 8192 <= |disk| && |info| == 512 && |dir| == 4096
    requires forall a :: 0 <= a < 4096 ==> dir[a] == 0
    ensures
      var d := Blit(Blit(disk, 1024, info), 4096, dir);
      && |d| == |disk| && d[1024..1536] == info
      && (forall a :: 4096 <= a < 8192 ==> d[a] == 0)
      && (forall a :: 0 <= a < |d| && !(1024 <= a < 1536 || 4096 <= a < 8192) ==> d[a] == disk[a])
  {
    hide Blit;
    var m := Blit(disk, 1024, info);
    var d := Blit(m, 4096, dir);
    BlitInside(disk, 1024, info);
    BlitApart(m, 4096, dir, 1024, 1536);
    forall a | 0 <= a < |d|
      ensures 4096 <= a < 8192 ==> d[a] == 0
      ensures !(1024 <= a < 1536 || 4096 <= a < 8192) ==> d[a] == disk[a]
    {
      BlitAt(m, 4096, dir, a);
      BlitAt(disk, 1024, info, a);
    }
  }

  lemma FormattedIs(disk: seq<byte>)
    requires 8192 <= |disk|
    ensures |EncodeDir(EmptyDir())| == 4096 && forall a :: 0 <= a < 4096 ==> EncodeDir(EmptyDir())[a] == 0
    ensures Formatted(disk).disk == Blit(Blit(disk, 1024, DiskInfo()), 4096, EncodeDir(EmptyDir()))
  {
    EmptyBytes(EmptyDir());
    hide EncodeDir, Blit, DiskInfo;
  }

  lemma MarkerInfo()
    ensures |DiskInfo()| == 512 && DiskInfo()[..4] == [66, 77, 70, 83] && forall k :: 4 <= k < 512 ==> DiskInfo()[k] == 0
  {
  }

  lemma MarkerBytes(info: seq<byte>, d: seq<byte>)
    requires 8192 <= |d| && d[1024..1536] == info
    requires info[..4] == [66, 77, 70, 83] && forall k :: 4 <= k < 512 ==> info[k] == 0
    ensures d[1024..1028] == [66, 77, 70, 83] && forall a :: 1028 <= a < 1536 ==> d[a] == 0
  {
    assert info[..4] == d[1024..1028];
    forall a | 1028 <= a < 1536
      ensures d[a] == 0
    {
      assert d[a] == info[a - 1024];
    }
  }

  lemma {:induction false} EmptyBytes(dir: seq<Entry>)
    requires forall i :: 0 <= i < |dir| ==> dir[i] == EmptyEntry()
    ensures |EncodeDir(dir)| == 64 * |dir| && forall a :: 0 <= a < |EncodeDir(dir)| ==> EncodeDir(dir)[a] == 0
    decreases |dir|
  {
    if dir != [] {
      EmptyBytes(dir[1..]);
      ZeroEntry();
    }
  }

  lemma ZeroEntry()
    ensures |Encode(EmptyEntry())| == 64 && forall a :: 0 <= a < 64 ==> Encode(EmptyEntry())[a] == 0
  {
    ZeroBytes(8);
  }

  lemma {:induction false} ZeroBytes(w: nat)
    ensures forall a :: 0 <= a < w ==> LE(0, w)[a] == 0
  {
    if w > 0 {
      ZeroBytes(w - 1);
    }
  }

  // Start of the utility: the directory is read from the disk.
  function Mount(disk: seq<byte>): State
    requires DIRECTORY_AT + DIRECTORY_SIZE <= |disk|
  {
    State(DecodeDir(disk[DIRECTORY_AT..DIRECTORY_AT + DIRECTORY_SIZE], SLOTS), disk)
  }

  // The next command finds the directory as the last one left it.
  lemma MountFindsState(fs: State)
    requires Inv(fs)
    ensures Mount(fs.disk) == fs
  {
    DirRoundTrip(fs.dir);
  }

  // ---------- commands and runs ----------

  datatype Command =
    | CFormat
    | CCreate(name: Name, maxsize: nat)
    | CDelete(name: Name)
    | CWrite(name: Name, data: seq<byte>)
    | CRead(name: Name)

  predicate ValidCommand(cmd: Command) {
    match cmd
    case CCreate(name, maxsize) => FitsName(name) && 0 < maxsize < U32
    case CWrite(name, data) => |data| < I32
    case _ => true
  }

  // One command: what it may leave on the disk, and its outcome.
  ghost predicate CommandResult(fs: State, cmd: Command, fs': State, out: Outcome)
    requires Inv(fs) && ValidCommand(cmd)
  {
    match cmd
    case CFormat => DIRECTORY_AT + DIRECTORY_SIZE <= |fs.disk| && fs' == Formatted(fs.disk) && out == Done
    case CCreate(name, maxsize) => CreateResult(fs, name, maxsize, fs', out)
    case CDelete(name) => (fs', out) == Delete(fs, name)
    case CWrite(name, data) => (fs', out) == Write(fs, name, data)
    case CRead(name) => fs' == fs && out == Read(fs, name)
  }

  ghost predicate SafeCommand(fs: State, cmd: Command)
    requires Inv(fs)
  {
    cmd.CCreate? ==> RightToCreate(fs, cmd.name, cmd.maxsize)
  }

  // The same command on a map of files.
  function AbsStep(files: map<Name, File>, cmd: Command, out: Outcome): map<Name, File> {
    if out != Done then files
    else match cmd
      case CFormat => map[]
      case CCreate(name, maxsize) => files[name := File((maxsize + 1) / 2, [])]
      case CDelete(name) => files - {name}
      case CWrite(name, data) => if name in files then files[name := files[name].(data := data)] else files
      case CRead(name) => files
  }

  // The answer that a map of files gives, but for the two kinds of lack of space.
  ghost predicate AbsAnswer(files: map<Name, File>, cmd: Command, out: Outcome) {
    match cmd
    case CFormat => out == Done
    case CCreate(name, maxsize) => if name in files then out == Exists else out == Done || out == NoSlot || out == NoSpace
    case CDelete(name) => out == if name in files then Done else NotFound
    case CWrite(name, data) =>
      out == if name !in files then NotFound else if files[name].reserved * BLOCK < |data| then TooBig else Done
    case CRead(name) => out == if name in files then Contents(files[name].data) else NotFound
  }

  // A safe command keeps the disk consistent, acts on the files as on a map, answers accordingly,
  // and leaves the boot sector, the tag and the boot payload alone.
  lemma CommandMeaning(fs: State, cmd: Command, fs': State, out: Outcome)
    requires Inv(fs) && ValidCommand(cmd) && CommandResult(fs, cmd, fs', out) && SafeCommand(fs, cmd)
    ensures Inv(fs') && OnlyDirectory(fs.disk, fs'.disk)
    ensures Abs(fs') == AbsStep(Abs(fs), cmd, out) && AbsAnswer(Abs(fs), cmd, out)
  {
    hide Inv, CreateResult, RightToCreate, PlacePromise, RightToPlace, BlocksFor, Delete, Write, Read, OnlyDirectory, Formatted, Abs;
    Unchanged(fs);
    match cmd
    case CFormat =>
      FormatOfFormatted(fs);
    case CCreate(name, maxsize) =>
      CreateIff(fs, name, maxsize, fs', out);
      BlocksForLeast(maxsize);
      assert LeastBlocks(maxsize, BlocksFor(maxsize)) && LeastBlocks(maxsize, (maxsize + 1) / 2);
      PromiseMeaning(fs, name, BlocksFor(maxsize), fs', out);
      CreateExists(fs, name, maxsize, fs', out);
    case CDelete(name) =>
      DeleteMeaning(fs, name);
    case CWrite(name, data) =>
      WriteMeaning(fs, name, data);
    case CRead(name) =>
      ReadMeaning(fs, name);
  }

  lemma PromiseMeaning(fs: State, name: Name, n: nat, fs': State, out: Outcome)
    requires Inv(fs) && PlacePromise(fs, name, n, fs', out)
    ensures Inv(fs') && OnlyDirectory(fs.disk, fs'.disk)
    ensures Abs(fs') == (if out == Done then Abs(fs)[name := File(n, [])] else Abs(fs))
    ensures out == Exists || out == NoSlot || out == NoSpace || out == Done
    ensures out == Exists ==> name in Abs(fs)
  {
    hide Inv, Abs;
  }

  lemma CreateExists(fs: State, name: Name, maxsize: nat, fs': State, out: Outcome)
    requires Inv(fs) && FitsName(name) && CreateResult(fs, name, maxsize, fs', out)
    ensures name in Abs(fs) ==> out == Exists
  {
    FoundIff(fs, name);
  }

  lemma FormatOfFormatted(fs: State)
    requires Inv(fs)
    ensures Inv(Formatted(fs.disk)) && Abs(Formatted(fs.disk)) == map[]
    ensures OnlyDirectory(fs.disk, Formatted(fs.disk).disk)
  {
    InvFacts(fs);
    TagAgain(fs);
    FormatMeaning(fs.disk);
    hide Inv, DirOk, Flushed, Abs;
    EmptyDirOk(NumBlocks(fs.disk));
    FlushKeepsInv(fs, fs.disk, EmptyDir());
    SystemAreaKept(fs.disk, fs.disk, Formatted(fs.disk).disk);
  }

  lemma TagAgain(fs: State)
    requires Inv(fs)
    ensures Blit(fs.disk, TAG_AT, DiskInfo()) == fs.disk
  {
  }

  // A run: the states it goes through and the outcomes of its commands.
  ghost predicate IsRun(states: seq<State>, cmds: seq<Command>, outs: seq<Outcome>) {
    && |states| == |cmds| + 1 == |outs| + 1
    && Inv(states[0])
    && forall i :: 0 <= i < |cmds| ==> RunStep(states[i], cmds[i], states[i + 1], outs[i])
  }

  ghost predicate RunStep(fs: State, cmd: Command, fs': State, out: Outcome) {
    Inv(fs) ==> ValidCommand(cmd) && SafeCommand(fs, cmd) && CommandResult(fs, cmd, fs', out)
  }

  function AbsRun(files: map<Name, File>, cmds: seq<Command>, outs: seq<Outcome>): map<Name, File>
    requires |outs| == |cmds|
  {
    if cmds == [] then files
    else
      var n := |cmds| - 1;
      AbsStep(AbsRun(files, cmds[..n], outs[..n]), cmds[n], outs[n])
  }

  // Over every run of safe commands the disk stays consistent (extents disjoint and inside the
  // data area, names unique, a well-shaped directory that the disk holds too), the files are what
  // the same commands make of a map, and nothing but the directory changes in the first block.
  lemma {:induction false} RunMeaning(states: seq<State>, cmds: seq<Command>, outs: seq<Outcome>)
    requires IsRun(states, cmds, outs)
    ensures Inv(states[|cmds|]) && OnlyDirectory(states[0].disk, states[|cmds|].disk)
    ensures Abs(states[|cmds|]) == AbsRun(Abs(states[0]), cmds, outs)
    decreases |cmds|
  {
    hide Inv, CommandResult, SafeCommand, AbsStep, AbsAnswer, OnlyDirectory, Abs, ValidCommand, RunStep;
    if cmds == [] {
      Unchanged(states[0]);
    } else {
      var n := |cmds| - 1;
      RunPrefix(states, cmds, outs, n);
      RunMeaning(states[..n + 1], cmds[..n], outs[..n]);
      RunAt(states, cmds, outs, n);
      CommandMeaning(states[n], cmds[n], states[n + 1], outs[n]);
      OnlyDirectoryTrans(states[0].disk, states[n].disk, states[n + 1].disk);
    }
  }

  // And every command of it answers as the map of files before it would.
  lemma RunAnswers(states: seq<State>, cmds: seq<Command>, outs: seq<Outcome>, i: nat)
    requires IsRun(states, cmds, outs) && i < |cmds|
    ensures AbsAnswer(AbsRun(Abs(states[0]), cmds[..i], outs[..i]), cmds[i], outs[i])
  {
    hide Inv, CommandResult, SafeCommand, AbsStep, AbsAnswer, OnlyDirectory, Abs, ValidCommand, RunStep;
    RunPrefix(states, cmds, outs, i);
    RunMeaning(states[..i + 1], cmds[..i], outs[..i]);
    RunAt(states, cmds, outs, i);
    CommandMeaning(states[i], cmds[i], states[i + 1], outs[i]);
  }

  lemma RunPrefix(states: seq<State>, cmds: seq<Command>, outs: seq<Outcome>, n: nat)
    requires IsRun(states, cmds, outs) && n <= |cmds|
    ensures IsRun(states[..n + 1], cmds[..n], outs[..n])
  {
    hide Inv, RunStep;
    forall i | 0 <= i < n
      ensures RunStep(states[..n + 1][i], cmds[..n][i], states[..n + 1][i + 1], outs[..n][i])
    {
      assert RunStep(states[i], cmds[i], states[i + 1], outs[i]);
    }
  }

  lemma RunAt(states: seq<State>, cmds: seq<Command>, outs: seq<Outcome>, n: nat)
    requires IsRun(states, cmds, outs) && n < |cmds|
    ensures Inv(states[n]) ==>
      ValidCommand(cmds[n]) && SafeCommand(states[n], cmds[n]) && CommandResult(states[n], cmds[n], states[n + 1], outs[n])
  {
    hide Inv;
    assert RunStep(states[n], cmds[n], states[n + 1], outs[n]);
  }

  lemma OnlyDirectoryTrans(a: seq<byte>, b: seq<byte>, c: seq<byte>)
    requires OnlyDirectory(a, b) && OnlyDirectory(b, c)
    ensures OnlyDirectory(a, c)
  {
  }

  // ---------- the deleted record that is taken for free space ----------

  function ExampleEntry(first: byte, start: nat, reserved: nat): Entry {
    Entry([first] + seq(NAME_SIZE - 1, _ => 0), start, reserved, 0, seq(8, _ => 0))
  }

  // Six blocks: a deleted file in block 1 and a live one in blocks 2 and 3.
  function ExampleDir(): seq<Entry> {
    [ExampleEntry(1, 1, 1), ExampleEntry(65, 2, 2)] + seq(SLOTS - 2, _ => EmptyEntry())
  }

  lemma ExampleDirOk()
    ensures Terminator(ExampleDir()) == 2 && DirOk(ExampleDir(), 6)
  {
    var dir := ExampleDir();
    TerminatorIs(dir, 2);
    assert dir[1].name[1] == 0;
    assert forall i :: Listed(dir, i) ==> i == 1;
  }

  // No two free blocks are left, and yet two are found, inside the live file.
  lemma StaleExample()
    ensures DirOk(ExampleDir(), 6) && !SafeToCreate(ExampleDir(), 6, 2)
    ensures exists perm :: Sorts(ExampleDir()[..NumUsed(ExampleDir())], [ExampleDir()[1], ExampleDir()[0]], perm, 1)
    ensures Sweep([ExampleDir()[1], ExampleDir()[0]], 1, 6, 2) == 2
    ensures Listed(ExampleDir(), 1) && !Apart(2, 2, ExampleDir()[1])
  {
    var dir := ExampleDir();
    ExampleDirOk();
    hide DirOk;
    assert dir[..2] == [dir[0], dir[1]];
    assert Sorts(dir[..NumUsed(dir)], [dir[1], dir[0]], [1, 0], 1);
    forall s
      ensures !FreeRun(dir, 6, s, 2)
    {
      assert Listed(dir, 1);
      if 1 <= s <= 3 { assert !Apart(s, 2, dir[1]); }
    }
    assert StaleRoom(dir, 6, 2) by { assert Deleted(dir[0]) && dir[0].End() == 2; }
    var rest := [dir[0]];
    assert [dir[1], dir[0]][1..] == rest && rest[1..] == [];
    assert Sweep([], 2, 6, 2) == 2;
    assert Sweep(rest, 4, 6, 2) == 2;
  }

  // Every formatted disk of six blocks can hold that directory.
  lemma StaleDisk(disk: seq<byte>)
    requires NumBlocks(disk) == 6 && |disk| / MIB < U32
    ensures
      var fs := Flushed(Formatted(disk).disk, ExampleDir());
      Inv(fs) && NumBlocks(fs.disk) == 6 && !SafeToCreate(fs.dir, NumBlocks(fs.disk), 2)
  {
    FormatMeaning(disk);
    ExampleDirOk();
    StaleExample();
    hide Inv, DirOk, SafeToCreate, NumBlocks;
    FormatKeepsSize(disk);
    InvFacts(Formatted(disk));
    SameNumBlocks(disk, Formatted(disk).disk);
    FlushKeepsInv(Formatted(disk), Formatted(disk).disk, ExampleDir());
    SameNumBlocks(disk, Flushed(Formatted(disk).disk, ExampleDir()).disk);
  }

  lemma FormatKeepsSize(disk: seq<byte>)
    requires DIRECTORY_AT + DIRECTORY_SIZE <= |disk|
    ensures |Formatted(disk).disk| == |disk|
  {
  }
}

/** `create` as the code has it, and exactly when it does what the file system promises. */
module BmfsCreate {
  import opened Bytes
  import opened Bmfs
  import opened BmfsSweep
  import opened BmfsImage
  import opened BmfsCommands

  // A C string of at most 31 characters, as the file system asks for.
  predicate FitsName(name: Name) {
    |name| < NAME_SIZE && 0 !in name
  }

  // A file name as the directory can hold it: not empty, and not starting with the byte that marks
  // deleted records.
  predicate ValidName(name: Name) {
    FitsName(name) && name != [] && name[0] != 1
  }

  // MiB rounded up to whole 2 MiB blocks.
  function BlocksFor(maxsize: nat): nat {
    (maxsize + maxsize % 2) / 2
  }

  // The least number of 2 MiB blocks that hold `maxsize` MiB.
  predicate LeastBlocks(maxsize: nat, r: int) {
    2 * r - 1 <= maxsize <= 2 * r
  }

  lemma LeastBlocksIff(maxsize: nat, r: nat)
    ensures LeastBlocks(maxsize, r) <==>
      maxsize * 1048576 <= r * 2097152 && (r == 0 || (r - 1) * 2097152 < maxsize * 1048576)
  {
  }

  lemma BlocksForLeast(maxsize: nat)
    ensures forall r: int :: LeastBlocks(maxsize, r) <==> r == BlocksFor(maxsize)
  {
  }

  // The new record in the free slot, and the next record marked as the end when the slot was the
  // one behind the counted records.
  function NewRecord(dir: seq<Entry>, name: Name, start: nat, n: nat): Entry
    requires FreeSlot(dir) < |dir| && |name| < |dir[FreeSlot(dir)].name|
  {
    Entry(Strcpy(dir[FreeSlot(dir)].name, name), start, n, 0, dir[FreeSlot(dir)].unused)
  }

  function Placed(dir: seq<Entry>, e: Entry): seq<Entry>
    requires FreeSlot(dir) < |dir|
  {
    var slot := FreeSlot(dir);
    var dir1 := dir[slot := e];
    if slot == NumUsed(dir) && slot + 1 < |dir| && |dir[slot + 1].name| > 0
    then dir1[slot + 1 := dir[slot + 1].(name := dir[slot + 1].name[0 := 0])] else dir1
  }

  // The outcome of `create` once the sort has picked an order: the start block the sweep settles
  // on, or 0.
  function Created(fs: State, name: Name, n: nat, start: nat): State
    requires FreeSlot(fs.dir) < |fs.dir| && |name| < |fs.dir[FreeSlot(fs.dir)].name|
  {
    Flushed(fs.disk, Placed(fs.dir, NewRecord(fs.dir, name, start, n)))
  }

  // What `create` may do: the order of the deleted records in the sorted copy is left open.
  ghost predicate CreateResult(fs: State, name: Name, maxsize: nat, fs': State, out: Outcome)
    requires Inv(fs) && FitsName(name)
  {
    var n := BlocksFor(maxsize);
    if FindFile(fs.dir, name) < |fs.dir| then fs' == fs && out == Exists
    else if FreeSlot(fs.dir) == |fs.dir| then fs' == fs && out == NoSlot
    else exists sorted, perm, k :: Sorts(fs.dir[..NumUsed(fs.dir)], sorted, perm, k) && CreateChoice(fs, name, n, sorted, fs', out)
  }

  ghost predicate CreateChoice(fs: State, name: Name, n: nat, sorted: seq<Entry>, fs': State, out: Outcome)
    requires Inv(fs) && FitsName(name) && FreeSlot(fs.dir) < |fs.dir|
  {
    var start := Sweep(sorted, 1, NumBlocks(fs.disk), n);
    if start == 0 then fs' == fs && out == NoSpace
    else fs' == Created(fs, name, n, start) && out == Done
  }

  // What a caller has to know beforehand. With a terminator in the directory: there is a free run,
  // or no deleted record has room for the file behind its old extent. With all 64 records taken:
  // blocks 1.. are free or the disk is too small, and the slot is not the first one.
  ghost predicate SafeToCreate(dir: seq<Entry>, blocks: nat, n: nat) {
    if Terminator(dir) < |dir| then (exists s :: FreeRun(dir, blocks, s, n)) || !StaleRoom(dir, blocks, n)
    else
      || FreeSlot(dir) == |dir|
      || blocks < n + 2
      || (FreeRun(dir, blocks, 1, n) && (FreeSlot(dir) == 0 ==> forall i :: !Listed(dir, i)))
  }

  // There is a record and a place for a file of `n` blocks.
  ghost predicate CanPlace(dir: seq<Entry>, blocks: nat, n: nat) {
    FreeSlot(dir) < |dir| && exists s :: FreeRun(dir, blocks, s, n)
  }

  // When `create` does what it is for: the file is there already, or the directory is a safe one and
  // the name is one it can hold, unless nothing can be placed anyway.
  ghost predicate RightToPlace(fs: State, name: Name, n: nat)
    requires Inv(fs)
  {
    var blocks := NumBlocks(fs.disk);
    name in Abs(fs) || (SafeToCreate(fs.dir, blocks, n) && (ValidName(name) || !CanPlace(fs.dir, blocks, n)))
  }

  // What `create` is for: an empty file of that name with `n` blocks, at the lowest place where it
  // fits, and nothing else changed; or no change, and a reason that is true.
  ghost predicate PlacePromise(fs: State, name: Name, n: nat, fs': State, out: Outcome)
    requires Inv(fs)
  {
    var lowest := LowestRun(fs.dir, NumBlocks(fs.disk), 1, n);
    && Inv(fs') && OnlyDirectory(fs.disk, fs'.disk)
    && (out == Exists ==> fs' == fs && name in Abs(fs))
    && (out == NoSlot ==> fs' == fs && forall i :: 0 <= i < |fs.dir| ==> Listed(fs.dir, i))
    && (out == NoSpace ==> fs' == fs && lowest == 0)
    && (out == Done ==>
        && name !in Abs(fs) && Abs(fs') == Abs(fs)[name := File(n, [])]
        && lowest != 0 && StartOf(fs', name) == lowest && SameElsewhere(fs.dir, fs'.dir, FreeSlot(fs.dir)))
    && (out == Exists || out == NoSlot || out == NoSpace || out == Done)
  }

  // Both in terms of the size in MiB.
  ghost predicate CreatePromise(fs: State, name: Name, maxsize: nat, fs': State, out: Outcome)
    requires Inv(fs)
  {
    exists n: nat :: LeastBlocks(maxsize, n) && PlacePromise(fs, name, n, fs', out)
  }

  ghost predicate RightToCreate(fs: State, name: Name, maxsize: nat)
    requires Inv(fs)
  {
    forall n: nat :: LeastBlocks(maxsize, n) ==> RightToPlace(fs, name, n)
  }

  // First block of the named file.
  ghost function StartOf(fs: State, name: Name): nat {
    var slot := FindFile(fs.dir, name);
    if slot < |fs.dir| then fs.dir[slot].start else 0
  }

  // ---------- the good case ----------

  lemma NewName(dst: seq<byte>, name: Name)
    requires ValidName(name) && |dst| == NAME_SIZE
    ensures CString(Strcpy(dst, name)) == name && 0 in Strcpy(dst, name)
    ensures Strcpy(dst, name)[0] == name[0] != 0
  {
    CStringOf(name, dst[|name| + 1..]);
    assert Strcpy(dst, name)[|name|] == 0;
  }

  // The new record fits into the directory when its run is free.
  lemma NewRecordFits(fs: State, name: Name, n: nat, start: nat)
    requires Inv(fs) && ValidName(name) && FindFile(fs.dir, name) == |fs.dir| && FreeSlot(fs.dir) < |fs.dir|
    requires 0 < n && FreeRun(fs.dir, NumBlocks(fs.disk), start, n)
    ensures |fs.dir[FreeSlot(fs.dir)].name| == NAME_SIZE
    ensures
      var e := NewRecord(fs.dir, name, start, n);
      && FitsIn(fs.dir, FreeSlot(fs.dir), e, NumBlocks(fs.disk)) && Live(e)
      && CString(e.name) == name && e.reserved == n && e.size == 0 && e.start == start
  {
    InvFacts(fs);
    var slot := FreeSlot(fs.dir);
    assert fs.dir[slot].WellFormed();
    NewName(fs.dir[slot].name, name);
    var e := NewRecord(fs.dir, name, start, n);
    assert n < U64 && start < U64;
    assert e.WellFormed();
    forall i | Listed(fs.dir, i) && i != slot
      ensures Separate(fs.dir[i], e) && Separate(e, fs.dir[i])
    {
      assert Apart(start, n, fs.dir[i]);
    }
  }

  // The directory after placing a record that fits, except where the code cuts off the rest of a
  // full directory.
  lemma PlacedDirectory(dir: seq<Entry>, e: Entry, blocks: nat)
    requires DirOk(dir, blocks) && FreeSlot(dir) < |dir| && FitsIn(dir, FreeSlot(dir), e, blocks) && Live(e)
    requires Terminator(dir) < |dir| || FreeSlot(dir) != 0
    ensures
      var slot := FreeSlot(dir);
      var dir' := Placed(dir, e);
      DirOk(dir', blocks) && SameElsewhere(dir, dir', slot) && Listed(dir', slot) && dir'[slot] == e && !Listed(dir, slot)
  {
    PlacedShape(dir, e);
    hide DirOk, FitsIn, SameElsewhere, Placed, Extended;
    if FreeSlot(dir) < Terminator(dir) {
      ReplaceRecord(dir, FreeSlot(dir), e, blocks);
    } else {
      ExtendDirectory(dir, e, blocks);
      ExtendedAt(dir, e);
    }
  }

  lemma PlacedShape(dir: seq<Entry>, e: Entry)
    requires FreeSlot(dir) < |dir| && (Terminator(dir) < |dir| || FreeSlot(dir) != 0)
    ensures FreeSlot(dir) < Terminator(dir) ==> Placed(dir, e) == dir[FreeSlot(dir) := e]
    ensures FreeSlot(dir) >= Terminator(dir) ==> Placed(dir, e) == Extended(dir, e)
  {
  }

  lemma ExtendedAt(dir: seq<Entry>, e: Entry)
    requires Terminator(dir) < |dir|
    ensures |Extended(dir, e)| == |dir| && Extended(dir, e)[Terminator(dir)] == e
  {
  }

  // With all records deleted and none behind them, the first slot starts a new list.
  lemma PlacedInEmpty(dir: seq<Entry>, e: Entry, blocks: nat)
    requires DirOk(dir, blocks) && FreeSlot(dir) == 0 && Terminator(dir) == |dir|
    requires FitsIn(dir, 0, e, blocks) && Live(e) && forall i :: !Listed(dir, i)
    ensures
      var dir' := Placed(dir, e);
      DirOk(dir', blocks) && SameElsewhere(dir, dir', 0) && Listed(dir', 0) && dir'[0] == e
  {
    var dir' := Placed(dir, e);
    assert dir[1].WellFormed();
    TerminatorIs(dir', 1);
    ChangedDirectory(dir, dir', 0, blocks);
  }

  lemma CreatedInRun(fs: State, name: Name, n: nat, start: nat)
    requires Inv(fs) && ValidName(name) && FindFile(fs.dir, name) == |fs.dir| && FreeSlot(fs.dir) < |fs.dir|
    requires 0 < n && start != 0 && start == LowestRun(fs.dir, NumBlocks(fs.disk), 1, n)
    requires Terminator(fs.dir) < |fs.dir| || FreeSlot(fs.dir) != 0 || forall i :: !Listed(fs.dir, i)
    ensures |fs.dir[FreeSlot(fs.dir)].name| == NAME_SIZE
    ensures PlacePromise(fs, name, n, Created(fs, name, n, start), Done)
  {
    NewRecordFits(fs, name, n, start);
    hide Inv, DirOk, NumBlocks, Flushed, SameElsewhere, FitsIn, NewRecord, Placed, OnlyDirectory;
    InvFacts(fs);
    var slot := FreeSlot(fs.dir);
    var e := NewRecord(fs.dir, name, start, n);
    if Terminator(fs.dir) < |fs.dir| || slot != 0 {
      PlacedDirectory(fs.dir, e, NumBlocks(fs.disk));
    } else {
      PlacedInEmpty(fs.dir, e, NumBlocks(fs.disk));
    }
    FoundIff(fs, name);
    RewriteSlot(fs, fs.disk, Placed(fs.dir, e), slot);
    NewFile(Created(fs, name, n, start), slot, name);
  }

  lemma NewFile(fs: State, slot: nat, name: Name)
    requires Inv(fs) && Listed(fs.dir, slot) && CString(fs.dir[slot].name) == name && fs.dir[slot].size == 0
    ensures StartOf(fs, name) == fs.dir[slot].start && FileAt(fs, slot) == File(fs.dir[slot].reserved, [])
  {
    assert forall j :: Listed(fs.dir, j) && j != slot ==> Separate(fs.dir[j], fs.dir[slot]);
  }

  // The record that is entered.
  lemma CreatedRecord(fs: State, name: Name, n: nat, start: nat)
    requires FreeSlot(fs.dir) < |fs.dir| && |name| < |fs.dir[FreeSlot(fs.dir)].name|
    ensures
      var dir' := Created(fs, name, n, start).dir;
      && |dir'| == |fs.dir| && dir'[FreeSlot(fs.dir)].start == start && dir'[FreeSlot(fs.dir)].reserved == n
      && dir'[FreeSlot(fs.dir)].size == 0
  {
    FlushedDir(fs.disk, Placed(fs.dir, NewRecord(fs.dir, name, start, n)));
  }

  // Without a terminator nothing is sorted and the sweep looks at the whole data area.
  lemma SweepNothing(blocks: nat, n: nat)
    requires 2 <= blocks < U64
    ensures Sweep([], 1, blocks, n) == if blocks < n + 2 then 0 else 1
  {
  }

  lemma NothingSorted(dir: seq<Entry>, sorted: seq<Entry>, perm: seq<nat>, k: nat)
    requires Terminator(dir) == |dir| && Sorts(dir[..NumUsed(dir)], sorted, perm, k)
    ensures sorted == []
  {
  }

  lemma LowestIs(dir: seq<Entry>, blocks: nat, n: nat, s: nat)
    requires 0 < n && FreeRun(dir, blocks, s, n) && forall t :: 1 <= t < s ==> !FreeRun(dir, blocks, t, n)
    ensures LowestRun(dir, blocks, 1, n) == s
  {
  }

  // In the safe cases every order the sort may choose leads to what is promised.
  lemma SafeCreate(fs: State, name: Name, maxsize: nat, fs': State, out: Outcome)
    requires Inv(fs) && FitsName(name) && 0 < maxsize < U32 && FindFile(fs.dir, name) == |fs.dir|
    requires CreateResult(fs, name, maxsize, fs', out) && SafeToCreate(fs.dir, NumBlocks(fs.disk), BlocksFor(maxsize))
    requires ValidName(name) || !CanPlace(fs.dir, NumBlocks(fs.disk), BlocksFor(maxsize))
    ensures PlacePromise(fs, name, BlocksFor(maxsize), fs', out) && CreatePromise(fs, name, maxsize, fs', out)
  {
    BlocksForLeast(maxsize);
    hide Inv, DirOk, NumBlocks, OnlyDirectory, Sorts, Sweep, LowestRun, SafeToCreate, Created, Abs, StartOf;
    var n, blocks := BlocksFor(maxsize), NumBlocks(fs.disk);
    InvFacts(fs);
    Unchanged(fs);
    if FreeSlot(fs.dir) == |fs.dir| {
      AllListed(fs.dir, blocks);
    } else {
      var sorted, perm, k :| Sorts(fs.dir[..NumUsed(fs.dir)], sorted, perm, k) && CreateChoice(fs, name, n, sorted, fs', out);
      SafeChoice(fs, n, sorted, perm, k);
      var start := Sweep(sorted, 1, blocks, n);
      LowestIsFree(fs.dir, blocks, n);
      if start != 0 {
        CreatedInRun(fs, name, n, start);
      }
    }
  }

  lemma LowestIsFree(dir: seq<Entry>, blocks: nat, n: nat)
    ensures LowestRun(dir, blocks, 1, n) != 0 <==> exists s :: FreeRun(dir, blocks, s, n)
  {
  }

  lemma SafeChoice(fs: State, n: nat, sorted: seq<Entry>, perm: seq<nat>, k: nat)
    requires Inv(fs) && 0 < n && FreeSlot(fs.dir) < |fs.dir| && Sorts(fs.dir[..NumUsed(fs.dir)], sorted, perm, k)
    requires SafeToCreate(fs.dir, NumBlocks(fs.disk), n)
    ensures Sweep(sorted, 1, NumBlocks(fs.disk), n) == LowestRun(fs.dir, NumBlocks(fs.disk), 1, n)
    ensures LowestRun(fs.dir, NumBlocks(fs.disk), 1, n) != 0 ==>
      Terminator(fs.dir) < |fs.dir| || FreeSlot(fs.dir) != 0 || forall i :: !Listed(fs.dir, i)
  {
    var blocks := NumBlocks(fs.disk);
    InvFacts(fs);
    if Terminator(fs.dir) < |fs.dir| {
      ChoiceMeaning(fs.dir, blocks, n, sorted, perm, k);
    } else {
      NothingSorted(fs.dir, sorted, perm, k);
      SweepNothing(blocks, n);
      if n + 2 <= blocks { LowestIs(fs.dir, blocks, n, 1); }
    }
  }

  lemma AllListed(dir: seq<Entry>, blocks: nat)
    requires DirOk(dir, blocks) && FreeSlot(dir) == |dir|
    ensures forall i :: 0 <= i < |dir| ==> Listed(dir, i)
  {
    forall i | 0 <= i < |dir|
      ensures Listed(dir, i)
    {
      assert dir[i].WellFormed();
    }
  }

  // ---------- and only in the safe cases ----------

  // When the promise was kept, the case was a safe one.
  lemma KeptMeansSafe(fs: State, name: Name, maxsize: nat, fs': State, out: Outcome)
    requires Inv(fs) && FitsName(name) && 0 < maxsize < U32 && FindFile(fs.dir, name) == |fs.dir|
    requires CreateResult(fs, name, maxsize, fs', out) && PlacePromise(fs, name, BlocksFor(maxsize), fs', out)
    ensures SafeToCreate(fs.dir, NumBlocks(fs.disk), BlocksFor(maxsize))
  {
    hide Inv, DirOk, OnlyDirectory, Sorts, CreateChoice, PlacePromise, SafeToCreate;
    var n := BlocksFor(maxsize);
    if FreeSlot(fs.dir) == |fs.dir| {
      SafeWithoutSlot(fs, n);
    } else {
      var sorted, perm, k :| Sorts(fs.dir[..NumUsed(fs.dir)], sorted, perm, k) && CreateChoice(fs, name, n, sorted, fs', out);
      if Terminator(fs.dir) < |fs.dir| {
        KeptMeansRun(fs, name, n, sorted, perm, k, fs', out);
      } else {
        NothingSorted(fs.dir, sorted, perm, k);
        KeptMeansFirst(fs, name, n, fs', out);
      }
    }
  }

  lemma SafeWithoutSlot(fs: State, n: nat)
    requires Inv(fs) && FreeSlot(fs.dir) == |fs.dir|
    ensures SafeToCreate(fs.dir, NumBlocks(fs.disk), n)
  {
    hide Inv, StaleRoom, FreeRun;
  }

  lemma KeptMeansRun(fs: State, name: Name, n: nat, sorted: seq<Entry>, perm: seq<nat>, k: nat, fs': State, out: Outcome)
    requires Inv(fs) && FitsName(name) && 0 < n && FreeSlot(fs.dir) < |fs.dir| && Terminator(fs.dir) < |fs.dir|
    requires Sorts(fs.dir[..NumUsed(fs.dir)], sorted, perm, k)
    requires CreateChoice(fs, name, n, sorted, fs', out) && PlacePromise(fs, name, n, fs', out)
    ensures SafeToCreate(fs.dir, NumBlocks(fs.disk), n)
  {
    hide Inv, DirOk, OnlyDirectory, Sorts, Sweep, Created, Abs, StaleRoom, FreeRun;
    InvFacts(fs);
    ChoiceMeaning(fs.dir, NumBlocks(fs.disk), n, sorted, perm, k);
  }

  lemma KeptMeansFirst(fs: State, name: Name, n: nat, fs': State, out: Outcome)
    requires Inv(fs) && FitsName(name) && 0 < n && FreeSlot(fs.dir) < |fs.dir| == Terminator(fs.dir)
    requires FindFile(fs.dir, name) == |fs.dir|
    requires CreateChoice(fs, name, n, [], fs', out) && PlacePromise(fs, name, n, fs', out)
    ensures SafeToCreate(fs.dir, NumBlocks(fs.disk), n)
  {
    NeverCreated(fs, name, n, fs', out);
    hide Inv, DirOk, OnlyDirectory, Sweep, Created, Abs, FreeRun, PlacePromise, ValidName;
    InvFacts(fs);
    SweepNothing(NumBlocks(fs.disk), n);
    if n + 2 <= NumBlocks(fs.disk) { KeptInFull(fs, name, n); }
  }

  // A promise kept by placing a file is about a name that the directory can hold.
  lemma NeverCreated(fs: State, name: Name, n: nat, fs': State, out: Outcome)
    requires Inv(fs) && FitsName(name) && PlacePromise(fs, name, n, fs', out)
    ensures out == Done ==> ValidName(name)
  {
    hide Inv, Abs, OnlyDirectory, ValidName;
    if !ValidName(name) { NeverListed(fs', name); }
  }

  lemma KeptNeedsName(fs: State, name: Name, maxsize: nat, fs': State, out: Outcome)
    requires Inv(fs) && FitsName(name) && 0 < maxsize < U32 && FindFile(fs.dir, name) == |fs.dir|
    requires CreateResult(fs, name, maxsize, fs', out) && PlacePromise(fs, name, BlocksFor(maxsize), fs', out)
    ensures ValidName(name) || !CanPlace(fs.dir, NumBlocks(fs.disk), BlocksFor(maxsize))
  {
    NeverCreated(fs, name, BlocksFor(maxsize), fs', out);
    LowestIsFree(fs.dir, NumBlocks(fs.disk), BlocksFor(maxsize));
    hide Inv, Abs, OnlyDirectory, ValidName, Sorts, Sweep, Created, LowestRun, FreeRun;
  }

  // No listed record bears a name that is empty or starts with the byte of deleted records.
  lemma NeverListed(fs: State, name: Name)
    requires FitsName(name) && !ValidName(name)
    ensures Inv(fs) ==> name !in Abs(fs)
  {
    forall i | Listed(fs.dir, i)
      ensures CString(fs.dir[i].name) != name
    {
      var e := fs.dir[i];
      assert Live(e) && |e.name| > 0;
      LiveNameStarts(e.name);
    }
  }

  lemma LiveNameStarts(bs: seq<byte>)
    requires |bs| > 0 && bs[0] != 0
    ensures CString(bs) != [] && CString(bs)[0] == bs[0]
  {
  }

  // A directory with all 64 records taken: the file is placed at block 1, and behind slot 0 the
  // list is cut off.
  lemma KeptInFull(fs: State, name: Name, n: nat)
    requires Inv(fs) && ValidName(name) && FindFile(fs.dir, name) == |fs.dir| && FreeSlot(fs.dir) < |fs.dir|
    requires Terminator(fs.dir) == |fs.dir| && 0 < n
    requires |fs.dir[FreeSlot(fs.dir)].name| == NAME_SIZE ==> PlacePromise(fs, name, n, Created(fs, name, n, 1), Done)
    ensures FreeRun(fs.dir, NumBlocks(fs.disk), 1, n) && (FreeSlot(fs.dir) == 0 ==> forall i :: !Listed(fs.dir, i))
  {
    InvFacts(fs);
    hide Inv, NumBlocks, OnlyDirectory, LowestRun;
    var slot := FreeSlot(fs.dir);
    assert fs.dir[slot].WellFormed();
    var e := NewRecord(fs.dir, name, 1, n);
    NewName(fs.dir[slot].name, name);
    var fs' := Created(fs, name, n, 1);
    FlushedDir(fs.disk, Placed(fs.dir, e));
    FullPlaced(fs.dir, name, e);
    if slot == 0 {
      forall i
        ensures !Listed(fs.dir, i)
      {
        if Listed(fs.dir, i) { OnlyFirst(fs, fs', name, i); }
      }
    }
  }

  lemma FullPlaced(dir: seq<Entry>, name: Name, e: Entry)
    requires |dir| == SLOTS && Terminator(dir) == |dir| && FreeSlot(dir) < |dir| && FindFile(dir, name) == |dir|
    requires Live(e) && CString(e.name) == name && |dir[1].name| > 0
    ensures FindFile(Placed(dir, e), name) == FreeSlot(dir) && Placed(dir, e)[FreeSlot(dir)] == e
    ensures FreeSlot(dir) == 0 ==> Terminator(Placed(dir, e)) == 1
  {
    var slot := FreeSlot(dir);
    var dir' := Placed(dir, e);
    if slot == 0 {
      TerminatorIs(dir', 1);
    } else {
      TerminatorIs(dir', |dir|);
    }
    assert Listed(dir', slot);
    var found := FindFile(dir', name);
    assert found != slot ==> Listed(dir, found);
  }

  lemma OnlyFirst(fs: State, fs': State, name: Name, i: int)
    requires Inv(fs) && Inv(fs') && Listed(fs.dir, i) && Terminator(fs'.dir) == 1
    requires |fs'.dir| > 0 && CString(fs'.dir[0].name) == name && name !in Abs(fs)
    ensures CString(fs.dir[i].name) in Abs(fs) && CString(fs.dir[i].name) !in Abs(fs')
  {
    AbsAt(fs, i);
  }

  // `create` keeps its promise exactly when the file exists already or the case is safe and the
  // name can be held.
  lemma PlaceIff(fs: State, name: Name, maxsize: nat, fs': State, out: Outcome)
    requires Inv(fs) && FitsName(name) && 0 < maxsize < U32 && CreateResult(fs, name, maxsize, fs', out)
    ensures PlacePromise(fs, name, BlocksFor(maxsize), fs', out) <==> RightToPlace(fs, name, BlocksFor(maxsize))
  {
    FoundIff(fs, name);
    hide Inv, SafeToCreate, CanPlace, ValidName;
    if FindFile(fs.dir, name) == |fs.dir| {
      if RightToPlace(fs, name, BlocksFor(maxsize)) {
        SafeCreate(fs, name, maxsize, fs', out);
      }
      if PlacePromise(fs, name, BlocksFor(maxsize), fs', out) {
        KeptMeansSafe(fs, name, maxsize, fs', out);
        KeptNeedsName(fs, name, maxsize, fs', out);
      }
    } else {
      Unchanged(fs);
    }
  }

  // The same in terms of the size asked for: `create` makes a file of the least number of blocks that
  // hold it, at the lowest place where it fits, exactly when it has the right to.
  lemma CreateIff(fs: State, name: Name, maxsize: nat, fs': State, out: Outcome)
    requires Inv(fs) && FitsName(name) && 0 < maxsize < U32 && CreateResult(fs, name, maxsize, fs', out)
    ensures CreatePromise(fs, name, maxsize, fs', out) <==> RightToCreate(fs, name, maxsize)
  {
    var n := BlocksFor(maxsize);
    BlocksForLeast(maxsize);
    PlaceIff(fs, name, maxsize, fs', out);
    hide Inv, PlacePromise, RightToPlace, LeastBlocks, BlocksFor;
  }

  // A file that was created has room for what was asked for.
  lemma CreatedHasRoom(fs: State, name: Name, maxsize: nat, fs': State, data: seq<byte>)
    requires Inv(fs) && CreatePromise(fs, name, maxsize, fs', Done)
    requires |data| <= maxsize * 1048576 && |data| < I32
    ensures Inv(fs') && Write(fs', name, data).1 == Done
  {
    hide Inv, OnlyDirectory, Abs, Write, Read, LowestRun, SameElsewhere;
    var n: nat :| LeastBlocks(maxsize, n) && PlacePromise(fs, name, n, fs', Done);
    assert name in Abs(fs') && Abs(fs')[name] == File(n, []);
    WriteMeaning(fs', name, data);
  }

  // In an unsafe case with a terminator the new file lies across an existing one.
  lemma UnsafeOverlaps(fs: State, n: nat, sorted: seq<Entry>, perm: seq<nat>, k: nat)
    requires Inv(fs) && 0 < n && Terminator(fs.dir) < |fs.dir| && Sorts(fs.dir[..NumUsed(fs.dir)], sorted, perm, k)
    requires !SafeToCreate(fs.dir, NumBlocks(fs.disk), n)
    ensures
      var start := Sweep(sorted, 1, NumBlocks(fs.disk), n);
      start != 0 && exists i :: Listed(fs.dir, i) && !Apart(start, n, fs.dir[i])
  {
    InvFacts(fs);
    ChoiceMeaning(fs.dir, NumBlocks(fs.disk), n, sorted, perm, k);
    assert !FreeRun(fs.dir, NumBlocks(fs.disk), Sweep(sorted, 1, NumBlocks(fs.disk), n), n);
  }
}

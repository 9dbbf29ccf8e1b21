/** The directory as bytes on the disk, and the disk as a map from file names to contents. */
module BmfsImage {
  import opened Bytes
  import opened Bmfs

  // ---------- records as bytes ----------

  function Encode(e: Entry): seq<byte> {
    e.name + LE(e.start, 8) + LE(e.reserved, 8) + LE(e.size, 8) + e.unused
  }

  function Decode(bs: seq<byte>): Entry
    requires |bs| == RECORD_SIZE
  {
    Entry(bs[..32], FromLE(bs[32..40]), FromLE(bs[40..48]), FromLE(bs[48..56]), bs[56..])
  }

  function EncodeDir(dir: seq<Entry>): seq<byte> {
    if dir == [] then [] else Encode(dir[0]) + EncodeDir(dir[1..])
  }

  function DecodeDir(bs: seq<byte>, slots: nat): seq<Entry>
    requires |bs| == RECORD_SIZE * slots
    decreases slots
  {
    if slots == 0 then [] else [Decode(bs[..RECORD_SIZE])] + DecodeDir(bs[RECORD_SIZE..], slots - 1)
  }

  lemma U64IsPow()
    ensures Pow256(8) == U64
  {
    assert Pow256(4) == U32;
  }

  lemma EntryRoundTrip(e: Entry)
    requires e.WellFormed()
    ensures |Encode(e)| == RECORD_SIZE && Decode(Encode(e)) == e
  {
    U64IsPow();
    RoundTripLE(e.start, 8);
    RoundTripLE(e.reserved, 8);
    RoundTripLE(e.size, 8);
    hide LE, FromLE;
    FiveParts(e.name, LE(e.start, 8), LE(e.reserved, 8), LE(e.size, 8), e.unused);
  }

  // The fields of a record by their offsets on the disk.
  lemma EncodeOffsets(e: Entry)
    requires e.WellFormed()
    ensures
      var bs := Encode(e);
      && |bs| == 64 && bs[..32] == e.name
      && FromLE(bs[32..40]) == e.start && FromLE(bs[40..48]) == e.reserved && FromLE(bs[48..56]) == e.size
  {
    U64IsPow();
    RoundTripLE(e.start, 8);
    RoundTripLE(e.reserved, 8);
    RoundTripLE(e.size, 8);
    hide LE, FromLE;
    FiveParts(e.name, LE(e.start, 8), LE(e.reserved, 8), LE(e.size, 8), e.unused);
  }

  lemma FiveParts(a: seq<byte>, b: seq<byte>, c: seq<byte>, d: seq<byte>, e: seq<byte>)
    requires |a| == 32 && |b| == |c| == |d| == |e| == 8
    ensures
      var bs := a + b + c + d + e;
      |bs| == 64 && bs[..32] == a && bs[32..40] == b && bs[40..48] == c && bs[48..56] == d && bs[56..] == e
  {
  }

  // Reading back the directory that was flushed gives the same records.
  lemma {:induction false} DirRoundTrip(dir: seq<Entry>)
    requires forall i :: 0 <= i < |dir| ==> dir[i].WellFormed()
    ensures |EncodeDir(dir)| == RECORD_SIZE * |dir|
    ensures DecodeDir(EncodeDir(dir), |dir|) == dir
  {
    if dir != [] {
      EntryRoundTrip(dir[0]);
      DirRoundTrip(dir[1..]);
      DirStep(dir);
    }
  }

  lemma DirStep(dir: seq<Entry>)
    requires dir != []
    requires |Encode(dir[0])| == RECORD_SIZE && Decode(Encode(dir[0])) == dir[0]
    requires |EncodeDir(dir[1..])| == RECORD_SIZE * |dir[1..]| && DecodeDir(EncodeDir(dir[1..]), |dir[1..]|) == dir[1..]
    ensures |EncodeDir(dir)| == RECORD_SIZE * |dir| && DecodeDir(EncodeDir(dir), |dir|) == dir
  {
    hide Encode, Decode, Entry.WellFormed;
    TwoParts(Encode(dir[0]), EncodeDir(dir[1..]));
    assert [dir[0]] + dir[1..] == dir;
  }

  lemma TwoParts(a: seq<byte>, b: seq<byte>)
    ensures (a + b)[..|a|] == a && (a + b)[|a|..] == b
  {
  }

  // ---------- the disk ----------

  const TAG: seq<byte> := [66, 77, 70, 83]

  // `format` writes this at TAG_AT.
  function DiskInfo(): (r: seq<byte>)
    ensures |r| == TAG_SIZE
  {
    TAG + seq(TAG_SIZE - 4, _ => 0)
  }

  ghost predicate Inv(fs: State) {
    && DIRECTORY_AT + DIRECTORY_SIZE <= |fs.disk|
    && 3 <= NumBlocks(fs.disk) && |fs.disk| / MIB < U32
    && DirOk(fs.dir, NumBlocks(fs.disk))
    && |EncodeDir(fs.dir)| == DIRECTORY_SIZE
    && fs.disk[DIRECTORY_AT..DIRECTORY_AT + DIRECTORY_SIZE] == EncodeDir(fs.dir)
    && fs.disk[TAG_AT..TAG_AT + TAG_SIZE] == DiskInfo()
  }

  lemma BlocksOnDisk(disk: seq<byte>)
    requires |disk| / MIB < U32
    ensures NumBlocks(disk) * BLOCK <= |disk| && NumBlocks(disk) < I32
  {
  }

  /** What a file is to its user. */
  datatype File = File(reserved: nat, data: seq<byte>)

  // `len` bytes from offset `at`, as far as the disk has them.
  function Slice(disk: seq<byte>, at: nat, len: nat): seq<byte> {
    if at + len <= |disk| then disk[at..at + len] else []
  }

  // The bytes of record `i`.
  function Data(fs: State, i: nat): seq<byte>
    requires i < |fs.dir|
  {
    Slice(fs.disk, fs.dir[i].start * BLOCK, fs.dir[i].size)
  }

  function FileAt(fs: State, i: nat): File
    requires i < |fs.dir|
  {
    File(fs.dir[i].reserved, Data(fs, i))
  }

  lemma FileOnDisk(fs: State, i: int)
    requires Inv(fs) && Listed(fs.dir, i)
    ensures
      var e := fs.dir[i];
      && BLOCK <= e.start * BLOCK
      && e.start * BLOCK + e.size <= e.End() * BLOCK <= |fs.disk|
  {
    BlocksOnDisk(fs.disk);
    var e := fs.dir[i];
    assert FileOk(e) && ExtentOk(e, NumBlocks(fs.disk));
    assert e.End() * BLOCK == e.start * BLOCK + e.reserved * BLOCK;
  }

  function Names(dir: seq<Entry>): set<Name> {
    set i | 0 <= i < |dir| && Listed(dir, i) :: CString(dir[i].name)
  }

  // The files of the disk by name.
  ghost function Abs(fs: State): map<Name, File>
    requires Inv(fs)
  {
    map name | name in Names(fs.dir) :: FileNamed(fs, name)
  }

  ghost function FileNamed(fs: State, name: Name): File
    requires Inv(fs) && name in Names(fs.dir)
  {
    FileAt(fs, FindFile(fs.dir, name))
  }

  // Every listed record is the file of its name.
  lemma AbsAt(fs: State, i: int)
    requires Inv(fs) && Listed(fs.dir, i)
    ensures CString(fs.dir[i].name) in Abs(fs) && Abs(fs)[CString(fs.dir[i].name)] == FileAt(fs, i)
  {
    var name := CString(fs.dir[i].name);
    assert name in Names(fs.dir);
    var k := FindFile(fs.dir, name);
    assert forall j :: Listed(fs.dir, j) && j != i ==> Separate(fs.dir[j], fs.dir[i]);
  }
}

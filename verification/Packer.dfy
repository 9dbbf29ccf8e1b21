/** ModulePacker: the kernel followed by its modules in one image, and the way back. */
module Packer {
  import opened Bytes

  const BUFFER_SIZE: nat := 128

  // ---------- the image ----------

  function Concat(ms: seq<seq<byte>>): seq<byte> {
    if ms == [] then [] else ms[0] + Concat(ms[1..])
  }

  // One module record: its size in four bytes, then the module.
  function Record(m: seq<byte>): seq<byte> {
    LE(|m| % U32, 4) + m
  }

  function Records(ms: seq<seq<byte>>): seq<byte> {
    if ms == [] then [] else Record(ms[0]) + Records(ms[1..])
  }

  function Image(kernel: seq<byte>, ms: seq<seq<byte>>): seq<byte> {
    kernel + LE(|ms| % U32, 4) + Records(ms)
  }

  // A kernel of one byte and modules of two bytes and of none.
  lemma ImageExample(k: byte, a: byte, b: byte)
    ensures Image([k], [[a, b], []]) == [k, 2, 0, 0, 0, 2, 0, 0, 0, a, b, 0, 0, 0, 0]
  {
    var ms: seq<seq<byte>> := [[a, b], []];
    FourBytes();
    hide LE;
    assert ms[1..] == [[]] && ms[1..][1..] == [];
    assert Records(ms[1..]) == [0, 0, 0, 0];
  }

  lemma FourBytes()
    ensures LE(2, 4) == [2, 0, 0, 0] && LE(0, 4) == [0, 0, 0, 0]
  {
    assert LE(0, 2) == [0, 0] && LE(0, 3) == [0, 0, 0];
  }

  // ---------- packing ----------

  /** A file open for reading. */
  class Source {
    const content: seq<byte>
    var pos: nat
    var atEof: bool

    constructor (content: seq<byte>)
      ensures this.content == content && pos == 0 && !atEof
    {
      this.content := content;
      pos := 0;
      atEof := false;
    }

    // fread: at most `n` bytes; a short read sets the end-of-file mark.
    method Read(n: nat) returns (chunk: seq<byte>)
      requires pos <= |content|
      modifies this
      ensures pos == old(pos) + |chunk| <= |content| && chunk == content[old(pos)..pos]
      ensures |chunk| <= n && (|chunk| < n ==> pos == |content|)
      ensures atEof == (old(atEof) || |chunk| < n)
    {
      var len := if pos + n <= |content| then n else |content| - pos;
      chunk := content[pos..pos + len];
      pos := pos + len;
      atEof := atEof || len < n;
    }
  }

  /** A file open for writing at its end. */
  class Target {
    var bytes: seq<byte>

    constructor ()
      ensures bytes == []
    {
      bytes := [];
    }

    method Append(bs: seq<byte>)
      modifies this
      ensures bytes == old(bytes) + bs
    {
      bytes := bytes + bs;
    }
  }

  // `write_file`: whole files are copied, whatever their length.
  method WriteFile(target: Target, source: Source)
    requires source.pos == 0 && !source.atEof
    modifies target, source
    ensures target.bytes == old(target.bytes) + source.content
  {
    assert target.bytes == old(target.bytes) + source.content[..0];
    while !source.atEof
      invariant source.pos <= |source.content|
      invariant source.atEof ==> source.pos == |source.content|
      invariant target.bytes == old(target.bytes) + source.content[..source.pos]
      decreases !source.atEof, |source.content| - source.pos
    {
      ghost var p := source.pos;
      var chunk := source.Read(BUFFER_SIZE);
      target.Append(chunk);
      assert source.content[..p] + chunk == source.content[..source.pos];
    }
    assert source.content[..|source.content|] == source.content;
  }

  // `buildImage`: the first file is the kernel.
  method BuildImage(files: seq<seq<byte>>) returns (image: seq<byte>)
    requires files != []
    ensures image == Image(files[0], files[1..])
  {
    hide LE, Records;
    var target := new Target();
    var kernel := new Source(files[0]);
    WriteFile(target, kernel);
    target.Append(LE((|files| - 1) % U32, 4));
    ghost var head := target.bytes;
    NoRecords(files);
    for i := 1 to |files|
      invariant target.bytes == head + Records(files[1..i])
    {
      var source := new Source(files[i]);
      target.Append(LE(|files[i]| % U32, 4));
      WriteFile(target, source);
      RecordAppended(head, files[1..i], files[i]);
      assert files[1..i + 1] == files[1..i] + [files[i]];
    }
    assert files[1..|files|] == files[1..];
    image := target.bytes;
  }

  lemma NoRecords(files: seq<seq<byte>>)
    requires files != []
    ensures Records(files[1..1]) == []
  {
  }

  lemma RecordAppended(head: seq<byte>, ms: seq<seq<byte>>, m: seq<byte>)
    ensures head + Records(ms) + LE(|m| % U32, 4) + m == head + Records(ms + [m])
  {
    hide LE;
    RecordsNext(ms, m);
  }

  lemma {:induction false} RecordsNext(ms: seq<seq<byte>>, m: seq<byte>)
    ensures Records(ms + [m]) == Records(ms) + Record(m)
  {
    if ms == [] {
      assert [m][1..] == [];
    } else {
      assert (ms + [m])[1..] == ms[1..] + [m];
      RecordsNext(ms[1..], m);
    }
  }

  // ---------- unpacking ----------

  // The module list found at `at`: the modules and the offset behind them, or nothing when the
  // bytes end too early.
  datatype Found = Found(modules: seq<seq<byte>>, end: nat) | Truncated

  function ReadUint32(bs: seq<byte>, at: nat): nat
    requires at + 4 <= |bs|
  {
    FromLE(bs[at..at + 4])
  }

  function ReadRecords(bs: seq<byte>, at: nat, count: nat): Found
    decreases count
  {
    if count == 0 then Found([], at)
    else if at + 4 > |bs| then Truncated
    else
      var size := ReadUint32(bs, at);
      if at + 4 + size > |bs| then Truncated
      else match ReadRecords(bs, at + 4 + size, count - 1)
        case Found(ms, end) => Found([bs[at + 4..at + 4 + size]] + ms, end)
        case Truncated => Truncated
  }

  function ReadModules(bs: seq<byte>, at: nat): Found {
    if at + 4 > |bs| then Truncated else ReadRecords(bs, at + 4, ReadUint32(bs, at))
  }

  // Module list `ms`, packed somewhere in `bs` at `at`.
  ghost predicate PackedAt(bs: seq<byte>, at: nat, ms: seq<seq<byte>>) {
    at + |Records(ms)| <= |bs| && bs[at..at + |Records(ms)|] == Records(ms)
  }

  // Size field, module and rest of a packed list, each in its place.
  lemma FirstRecord(bs: seq<byte>, at: nat, ms: seq<seq<byte>>)
    requires PackedAt(bs, at, ms) && ms != []
    ensures at + 4 + |ms[0]| <= |bs| && PackedAt(bs, at + 4 + |ms[0]|, ms[1..])
    ensures |Records(ms)| == 4 + |ms[0]| + |Records(ms[1..])|
    ensures ReadUint32(bs, at) == |ms[0]| % U32 && bs[at + 4..at + 4 + |ms[0]|] == ms[0]
  {
    hide LE, FromLE;
    SizeField(|ms[0]|);
    ThreeParts(bs, at, LE(|ms[0]| % U32, 4), ms[0], Records(ms[1..]));
  }

  lemma ThreeParts(bs: seq<byte>, at: nat, a: seq<byte>, b: seq<byte>, c: seq<byte>)
    requires at + |a| + |b| + |c| <= |bs| && bs[at..at + |a| + |b| + |c|] == a + b + c
    ensures bs[at..at + |a|] == a && bs[at + |a|..at + |a| + |b|] == b
    ensures bs[at + |a| + |b|..at + |a| + |b| + |c|] == c
  {
    var w := bs[at..at + |a| + |b| + |c|];
    assert w[0..|a|] == a && w[|a|..|a| + |b|] == b && w[|a| + |b|..|w|] == c;
    SliceOfSlice(bs, at, at + |w|, 0, |a|);
    SliceOfSlice(bs, at, at + |w|, |a|, |a| + |b|);
    SliceOfSlice(bs, at, at + |w|, |a| + |b|, |w|);
  }

  lemma SizeField(n: nat)
    ensures FromLE(LE(n % U32, 4)) == n % U32
  {
    assert U32 == Pow256(4);
    RoundTripLE(n % U32, 4);
  }

  lemma ReadStep(bs: seq<byte>, at: nat, count: nat, m: seq<byte>)
    requires 0 < count && at + 4 + |m| <= |bs| && bs[at + 4..at + 4 + |m|] == m && ReadUint32(bs, at) == |m|
    ensures ReadRecords(bs, at, count) ==
      match ReadRecords(bs, at + 4 + |m|, count - 1)
      case Found(rest, end) => Found([m] + rest, end)
      case Truncated => Truncated
  {
  }

  // Every module size fits the four bytes of its record.
  predicate SmallSizes(ms: seq<seq<byte>>) {
    forall i :: 0 <= i < |ms| ==> |ms[i]| < U32
  }

  lemma ReadFirst(bs: seq<byte>, at: nat, ms: seq<seq<byte>>)
    requires PackedAt(bs, at, ms) && SmallSizes(ms) && ms != []
    ensures
      var next := at + 4 + |ms[0]|;
      && next <= |bs| && PackedAt(bs, next, ms[1..]) && SmallSizes(ms[1..])
      && at + |Records(ms)| == next + |Records(ms[1..])|
      && (ReadRecords(bs, next, |ms[1..]|) == Found(ms[1..], next + |Records(ms[1..])|) ==>
        ReadRecords(bs, at, |ms|) == Found(ms, at + |Records(ms)|))
  {
    hide Records, ReadRecords, PackedAt, ReadUint32;
    FirstRecord(bs, at, ms);
    ReadStep(bs, at, |ms|, ms[0]);
    assert [ms[0]] + ms[1..] == ms;
  }

  lemma {:induction false} UnpackRecords(bs: seq<byte>, at: nat, ms: seq<seq<byte>>)
    requires at <= |bs| && PackedAt(bs, at, ms) && SmallSizes(ms)
    ensures ReadRecords(bs, at, |ms|) == Found(ms, at + |Records(ms)|)
    decreases |ms|
  {
    hide *;
    if ms == [] {
      ReadNone(bs, at);
    } else {
      ReadFirst(bs, at, ms);
      UnpackRecords(bs, at + 4 + |ms[0]|, ms[1..]);
    }
  }

  lemma ReadNone(bs: seq<byte>, at: nat)
    requires at <= |bs|
    ensures ReadRecords(bs, at, 0) == Found([], at) && Records([]) == []
  {
  }

  // A module of 2^32 bytes or more loses its upper size bits and is read back too short.
  lemma {:induction false} HugeModule(bs: seq<byte>, at: nat, ms: seq<seq<byte>>)
    requires PackedAt(bs, at, ms) && !SmallSizes(ms)
    ensures ReadRecords(bs, at, |ms|).Found? ==> ReadRecords(bs, at, |ms|).modules != ms
    decreases |ms|
  {
    hide Records, PackedAt, ReadUint32;
    FirstRecord(bs, at, ms);
    if |ms[0]| < U32 {
      ReadStep(bs, at, |ms|, ms[0]);
      HugeModule(bs, at + 4 + |ms[0]|, ms[1..]);
      var rest := ReadRecords(bs, at + 4 + |ms[0]|, |ms| - 1);
      if rest.Found? { assert ([ms[0]] + rest.modules)[1..] == rest.modules; }
    }
  }

  lemma ModuleList(kernel: seq<byte>, ms: seq<seq<byte>>)
    requires |ms| < U32
    ensures
      var bs := Image(kernel, ms);
      && |kernel| + 4 <= |bs| && |bs| == |kernel| + 4 + |Records(ms)|
      && ReadUint32(bs, |kernel|) == |ms| && PackedAt(bs, |kernel| + 4, ms)
  {
    hide LE, FromLE, Records;
    SizeField(|ms|);
    var bs := Image(kernel, ms);
    assert bs[|kernel|..|kernel| + 4] == LE(|ms|, 4);
  }

  // Reading the image from behind the kernel recovers exactly the modules, and ends at the end of
  // the image, just when every module size fits its four bytes.
  lemma UnpackIff(kernel: seq<byte>, ms: seq<seq<byte>>)
    requires |ms| < U32
    ensures ReadModules(Image(kernel, ms), |kernel|) == Found(ms, |Image(kernel, ms)|)
            <==> SmallSizes(ms)
  {
    hide Records, FromLE;
    ModuleList(kernel, ms);
    if SmallSizes(ms) {
      UnpackRecords(Image(kernel, ms), |kernel| + 4, ms);
    } else {
      HugeModule(Image(kernel, ms), |kernel| + 4, ms);
    }
  }
}

/** `initialize`: the disk image with boot sector, loader and packed kernel. */
module BootDisk {
  import opened Bytes
  import Bmfs
  import BmfsImage
  import BmfsCommands
  import BmfsRuns

  const SECTOR: nat := 512
  const PAYLOAD_AT: nat := 8192
  const BUFFER: nat := 51200
  const MINIMUM_DISK: nat := 6291456

  // fwrite at `pos`: the file grows when it has to.
  function Overlay(bytes: seq<byte>, pos: nat, bs: seq<byte>): (r: seq<byte>)
    requires pos <= |bytes|
    ensures |r| == if pos + |bs| <= |bytes| then |bytes| else pos + |bs|
  {
    bytes[..pos] + bs + (if pos + |bs| <= |bytes| then bytes[pos + |bs|..] else [])
  }

  /** The disk file open for writing. */
  class DiskFile {
    var bytes: seq<byte>
    var pos: nat

    constructor ()
      ensures bytes == [] && pos == 0
    {
      bytes, pos := [], 0;
    }

    method Seek(to: nat)
      requires to <= |bytes|
      modifies `pos
      ensures pos == to
    {
      pos := to;
    }

    method Write(bs: seq<byte>)
      requires pos <= |bytes|
      modifies this
      ensures bytes == Overlay(old(bytes), old(pos), bs) && pos == old(pos) + |bs|
    {
      bytes := Overlay(bytes, pos, bs);
      pos := pos + |bs|;
    }

    // The loops that copy a whole file through a buffer of 50 KiB.
    method CopyFile(content: seq<byte>)
      requires pos <= |bytes|
      modifies this
      ensures bytes == Overlay(old(bytes), old(pos), content) && pos == old(pos) + |content|
    {
      var done := 0;
      OverlayNothing(bytes, pos);
      while true
        invariant done <= |content| && pos == old(pos) + done <= |bytes|
        invariant bytes == Overlay(old(bytes), old(pos), content[..done])
        decreases |content| - done
      {
        var chunkSize := if done + BUFFER <= |content| then BUFFER else |content| - done;
        if chunkSize == 0 { break; }
        OverlayMore(old(bytes), old(pos), content[..done], content[done..done + chunkSize]);
        assert content[..done] + content[done..done + chunkSize] == content[..done + chunkSize];
        Write(content[done..done + chunkSize]);
        done := done + chunkSize;
      }
      assert content[..done] == content;
    }
  }

  lemma OverlayNothing(bytes: seq<byte>, pos: nat)
    requires pos <= |bytes|
    ensures Overlay(bytes, pos, []) == bytes
  {
  }

  lemma OverlayMore(bytes: seq<byte>, pos: nat, a: seq<byte>, b: seq<byte>)
    requires pos <= |bytes|
    ensures pos + |a| <= |Overlay(bytes, pos, a)|
    ensures Overlay(Overlay(bytes, pos, a), pos + |a|, b) == Overlay(bytes, pos, a + b)
  {
    var x := Overlay(bytes, pos, a);
    assert x[..pos + |a|] == bytes[..pos] + a;
    if pos + |a| + |b| <= |bytes| {
      assert x[pos + |a| + |b|..] == bytes[pos + |a| + |b|..];
    }
  }

  // A disk of `size` zero bytes, formatted.
  function Blank(size: nat): (r: seq<byte>)
    requires MINIMUM_DISK <= size
    ensures |r| == size
  {
    BmfsRuns.Formatted(seq(size, _ => 0)).disk
  }

  // Boot sector at the start, loader and kernel one after the other behind the directory.
  function DiskImage(size: nat, mbr: Option<seq<byte>>, boot: Option<seq<byte>>, kernel: Option<seq<byte>>): seq<byte>
    requires MINIMUM_DISK <= size && (mbr.Some? ==> SECTOR <= |mbr.value|)
  {
    var d1 := if mbr.Some? then Overlay(Blank(size), 0, mbr.value[..SECTOR]) else Blank(size);
    Overlay(d1, PAYLOAD_AT, Payload(boot, kernel))
  }

  // `initialize` from the point where the size is known and the files are open: 0 and the disk
  // image, or 1 when the size is too small or the boot sector file is too short.
  method Initialize(diskSize: nat, mbr: Option<seq<byte>>, boot: Option<seq<byte>>, kernel: Option<seq<byte>>)
      returns (ret: int, image: seq<byte>)
    requires kernel.Some? ==> boot.Some?
    ensures ret == 0 <==> 6291456 <= diskSize && (mbr.Some? ==> 512 <= |mbr.value|)
    ensures ret == 0 ==> image == DiskImage(diskSize, mbr, boot, kernel)
  {
    image := [];
    if diskSize < MINIMUM_DISK {
      return 1, image;
    }
    var disk := new DiskFile();
    FillZero(disk, diskSize);
    Format(disk);
    if mbr.Some? {
      disk.Seek(0);
      if |mbr.value| < SECTOR {
        return 1, disk.bytes;
      }
      disk.Write(mbr.value[..SECTOR]);
    }
    hide BmfsRuns.Formatted, Payload;
    WritePayload(disk, boot, kernel);
    return 0, disk.bytes;
  }

  // The files given by the caller.
  function Payload(boot: Option<seq<byte>>, kernel: Option<seq<byte>>): seq<byte> {
    (if boot.Some? then boot.value else []) + (if kernel.Some? then kernel.value else [])
  }

  // The loader at the fixed place, the kernel where the loader ends.
  method WritePayload(disk: DiskFile, boot: Option<seq<byte>>, kernel: Option<seq<byte>>)
    requires PAYLOAD_AT <= |disk.bytes| && (kernel.Some? ==> boot.Some?)
    modifies disk
    ensures disk.bytes == Overlay(old(disk.bytes), PAYLOAD_AT, Payload(boot, kernel))
  {
    hide Overlay;
    OverlayNothing(disk.bytes, PAYLOAD_AT);
    if boot.Some? {
      disk.Seek(PAYLOAD_AT);
      disk.CopyFile(boot.value);
      if kernel.Some? {
        OverlayMore(old(disk.bytes), PAYLOAD_AT, boot.value, kernel.value);
        disk.CopyFile(kernel.value);
      } else {
        assert boot.value + [] == boot.value;
      }
    } else {
      assert Payload(boot, kernel) == [];
    }
  }

  // The loop that fills the image with zeros.
  method FillZero(disk: DiskFile, diskSize: nat)
    requires disk.bytes == [] && disk.pos == 0
    modifies disk
    ensures disk.bytes == seq(diskSize, _ => 0)
  {
    var writeSize := 0;
    while writeSize < diskSize
      invariant writeSize <= diskSize && disk.pos == writeSize && disk.bytes == seq(writeSize, _ => 0)
    {
      var chunkSize := if BUFFER > diskSize - writeSize then diskSize - writeSize else BUFFER;
      disk.Write(seq(chunkSize, _ => 0));
      writeSize := writeSize + chunkSize;
    }
  }

  // `format` on the open file.
  method Format(disk: DiskFile)
    requires MINIMUM_DISK <= |disk.bytes|
    modifies disk
    ensures disk.bytes == BmfsRuns.Formatted(old(disk.bytes)).disk
  {
    FormatWrites(disk.bytes);
    FormatWith(disk, BmfsImage.DiskInfo(), BmfsImage.EncodeDir(BmfsRuns.EmptyDir()));
  }

  method FormatWith(disk: DiskFile, info: seq<byte>, records: seq<byte>)
    requires Bmfs.TAG_AT <= |disk.bytes| && Bmfs.DIRECTORY_AT <= |Overlay(disk.bytes, Bmfs.TAG_AT, info)|
    modifies disk
    ensures disk.bytes == Overlay(Overlay(old(disk.bytes), Bmfs.TAG_AT, info), Bmfs.DIRECTORY_AT, records)
  {
    hide Overlay;
    disk.Seek(Bmfs.TAG_AT);
    disk.Write(info);
    disk.Seek(Bmfs.DIRECTORY_AT);
    disk.Write(records);
  }

  lemma FormatWrites(bytes: seq<byte>)
    requires MINIMUM_DISK <= |bytes|
    ensures |BmfsImage.EncodeDir(BmfsRuns.EmptyDir())| == Bmfs.DIRECTORY_SIZE
    ensures |Overlay(bytes, Bmfs.TAG_AT, BmfsImage.DiskInfo())| == |bytes|
    ensures Overlay(Overlay(bytes, Bmfs.TAG_AT, BmfsImage.DiskInfo()), Bmfs.DIRECTORY_AT, BmfsImage.EncodeDir(BmfsRuns.EmptyDir()))
            == BmfsRuns.Formatted(bytes).disk
  {
    BmfsRuns.EmptyDirOk(3);
    BmfsCommands.EncodedSize(BmfsRuns.EmptyDir(), 3);
    hide BmfsImage.EncodeDir, BmfsImage.DiskInfo, BmfsRuns.EmptyDir, Bmfs.DirOk;
    OverlayFits(bytes, Bmfs.TAG_AT, BmfsImage.DiskInfo());
    OverlayFits(Blit(bytes, Bmfs.TAG_AT, BmfsImage.DiskInfo()), Bmfs.DIRECTORY_AT, BmfsImage.EncodeDir(BmfsRuns.EmptyDir()));
  }

  lemma OverlayFits(bytes: seq<byte>, pos: nat, bs: seq<byte>)
    requires pos + |bs| <= |bytes|
    ensures Overlay(bytes, pos, bs) == Blit(bytes, pos, bs)
  {
  }

  // ---------- what the image holds ----------

  lemma OverlayInside(bytes: seq<byte>, pos: nat, bs: seq<byte>)
    requires pos <= |bytes|
    ensures Overlay(bytes, pos, bs)[pos..pos + |bs|] == bs
  {
  }

  lemma OverlayApart(bytes: seq<byte>, pos: nat, bs: seq<byte>, lo: nat, hi: nat)
    requires pos <= |bytes| && lo <= hi <= |bytes| && (hi <= pos || pos + |bs| <= lo)
    ensures Overlay(bytes, pos, bs)[lo..hi] == bytes[lo..hi]
  {
  }

  // Loader and kernel lie together behind the directory, the boot sector in front.
  lemma ImageHolds(size: nat, mbr: seq<byte>, boot: seq<byte>, kernel: seq<byte>)
    requires MINIMUM_DISK <= size && SECTOR <= |mbr| && PAYLOAD_AT + |boot| + |kernel| <= size
    ensures
      var d := DiskImage(size, Some(mbr), Some(boot), Some(kernel));
      && |d| == size
      && d[..512] == mbr[..512]
      && d[8192..8192 + |boot| + |kernel|] == boot + kernel
  {
    var d1 := Overlay(Blank(size), 0, mbr[..SECTOR]);
    OverlayInside(Blank(size), 0, mbr[..SECTOR]);
    OverlayInside(d1, PAYLOAD_AT, boot + kernel);
    OverlayApart(d1, PAYLOAD_AT, boot + kernel, 0, SECTOR);
  }

  // The image is an empty file system from which the loader has not taken any file's place, as
  // long as loader and kernel fit into the first block.
  lemma ImageIsEmptyBmfs(size: nat, mbr: seq<byte>, boot: seq<byte>, kernel: seq<byte>)
    requires MINIMUM_DISK <= size && size / Bmfs.MIB < U32 && SECTOR <= |mbr|
    requires PAYLOAD_AT + |boot| + |kernel| <= Bmfs.BLOCK
    ensures
      var d := DiskImage(size, Some(mbr), Some(boot), Some(kernel));
      && |d| == size
      && BmfsImage.Inv(BmfsRuns.Mount(d)) && BmfsImage.Abs(BmfsRuns.Mount(d)) == map[]
  {
    var zero := seq(size, _ => 0);
    BmfsRuns.FormatMeaning(zero);
    var fs := BmfsRuns.Formatted(zero);
    var d := DiskImage(size, Some(mbr), Some(boot), Some(kernel));
    var d1 := Overlay(Blank(size), 0, mbr[..SECTOR]);
    OverlayApart(Blank(size), 0, mbr[..SECTOR], SECTOR, PAYLOAD_AT);
    OverlayApart(d1, PAYLOAD_AT, boot + kernel, SECTOR, PAYLOAD_AT);
    SystemPart(fs, d);
    BmfsRuns.MountFindsState(Bmfs.State(fs.dir, d));
  }

  lemma SystemPart(fs: Bmfs.State, d: seq<byte>)
    requires BmfsImage.Inv(fs) && BmfsImage.Abs(fs) == map[] && |d| == |fs.disk| && PAYLOAD_AT <= |d|
    requires d[SECTOR..PAYLOAD_AT] == fs.disk[SECTOR..PAYLOAD_AT]
    ensures BmfsImage.Inv(Bmfs.State(fs.dir, d)) && BmfsImage.Abs(Bmfs.State(fs.dir, d)) == map[]
  {
    SliceOfSlice(d, SECTOR, PAYLOAD_AT, Bmfs.TAG_AT - SECTOR, Bmfs.TAG_AT + Bmfs.TAG_SIZE - SECTOR);
    SliceOfSlice(fs.disk, SECTOR, PAYLOAD_AT, Bmfs.TAG_AT - SECTOR, Bmfs.TAG_AT + Bmfs.TAG_SIZE - SECTOR);
    SliceOfSlice(d, SECTOR, PAYLOAD_AT, Bmfs.DIRECTORY_AT - SECTOR, PAYLOAD_AT - SECTOR);
    SliceOfSlice(fs.disk, SECTOR, PAYLOAD_AT, Bmfs.DIRECTORY_AT - SECTOR, PAYLOAD_AT - SECTOR);
    BmfsCommands.SameNumBlocks(fs.disk, d);
    assert BmfsImage.Abs(fs).Keys == BmfsImage.Names(fs.dir);
  }
}

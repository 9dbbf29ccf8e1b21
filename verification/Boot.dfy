/** The boot chain from the disk image to the loaded modules. */
module Boot {
  import opened Bytes
  import opened BootStages
  import BootDisk
  import Packer
  import PageTables

  const USERLAND_CODE: nat := 0x400000
  const SAMPLE_DATA: nat := 0x500000
  const MEMORY: nat := 0x600000

  // ---------- loadModules ----------

  // The bytes `bs` stand at `at`.
  ghost predicate At(m: seq<byte>, at: nat, bs: seq<byte>) {
    at + |bs| <= |m| && m[at..at + |bs|] == bs
  }

  lemma AtKept(m: seq<byte>, at: nat, bs: seq<byte>, w: nat, ws: seq<byte>)
    requires At(m, at, bs) && w + |ws| <= |m| && (at + |bs| <= w || w + |ws| <= at)
    ensures At(Blit(m, w, ws), at, bs)
  {
    BlitApart(m, w, ws, at, at + |bs|);
  }

  // Targets above the packed modules, in ascending order and far enough apart.
  ghost predicate Placeable(ms: seq<seq<byte>>, targets: seq<nat>, lo: nat, hi: nat) {
    && |ms| <= |targets| && lo <= hi
    && (forall i :: 0 <= i < |ms| ==> lo <= targets[i] && targets[i] + |ms[i]| <= hi)
    && (forall i, j :: 0 <= i < j < |ms| ==> targets[i] + |ms[i]| <= targets[j])
  }

  ghost predicate LoadedUpTo(m: seq<byte>, ms: seq<seq<byte>>, targets: seq<nat>, n: nat)
    requires n <= |ms| <= |targets|
  {
    forall i :: 0 <= i < n ==> At(m, targets[i], ms[i])
  }

  // readUint32: the value and the advanced cursor.
  method ReadUint32(mem: array<byte>, address: nat) returns (result: nat, address': nat)
    requires address + 4 <= mem.Length
    ensures result == Packer.ReadUint32(mem[..], address) && address' == address + 4
  {
    assert mem[address..address + 4] == mem[..][address..address + 4];
    result := FromLE(mem[address..address + 4]);
    address' := address + 4;
  }

  // loadModule
  method LoadModule(mem: array<byte>, cursor: nat, target: nat) returns (cursor': nat)
    requires cursor + 4 <= mem.Length
    requires
      var size := Packer.ReadUint32(mem[..], cursor);
      cursor + 4 + size <= target && target + size <= mem.Length
    modifies mem
    ensures
      var size := Packer.ReadUint32(old(mem[..]), cursor);
      cursor' == cursor + 4 + size && mem[..] == Blit(old(mem[..]), target, old(mem[..])[cursor + 4..cursor'])
  {
    var moduleSize, module' := ReadUint32(mem, cursor);
    Memcpy(mem, target, module', moduleSize);
    assert old(mem[cursor + 4..cursor + 4 + moduleSize]) == old(mem[..])[cursor + 4..cursor + 4 + moduleSize];
    cursor' := module' + moduleSize;
  }

  // loadModules: every module of the list at `payloadStart` is copied to its target; memory below
  // `lo`, where the list lies, does not change.
  method LoadModules(mem: array<byte>, payloadStart: nat, targets: seq<nat>, ghost ms: seq<seq<byte>>, ghost end: nat, ghost lo: nat)
    requires Packer.ReadModules(mem[..], payloadStart) == Packer.Found(ms, end)
    requires end <= lo && Placeable(ms, targets, lo, mem.Length)
    modifies mem
    ensures LoadedUpTo(mem[..], ms, targets, |ms|) && PageTables.Same(old(mem[..]), mem[..], 0, lo)
  {
    hide Packer.ReadRecords, Packer.ReadUint32, At;
    ghost var m0 := mem[..];
    CountFound(m0, payloadStart, ms, end);
    var moduleCount, currentModule := ReadUint32(mem, payloadStart);
    assert ms[0..] == ms;
    var i := 0;
    while i < moduleCount
      invariant 0 <= i <= moduleCount == |ms|
      invariant Packer.ReadRecords(m0, currentModule, |ms| - i) == Packer.Found(ms[i..], end)
      invariant PageTables.Same(m0, mem[..], 0, lo) && LoadedUpTo(mem[..], ms, targets, i)
    {
      RecordFound(m0, mem[..], currentModule, ms[i..], end, lo);
      ghost var m, cursor := mem[..], currentModule;
      currentModule := LoadModule(mem, currentModule, targets[i]);
      ModuleLoaded(m0, m, ms, targets, i, lo);
      assert ms[i..][1..] == ms[i + 1..];
      i := i + 1;
    }
  }

  lemma CountFound(m: seq<byte>, at: nat, ms: seq<seq<byte>>, end: nat)
    requires Packer.ReadModules(m, at) == Packer.Found(ms, end)
    ensures at + 4 <= |m| && Packer.ReadUint32(m, at) == |ms|
    ensures Packer.ReadRecords(m, at + 4, |ms|) == Packer.Found(ms, end) && end <= |m|
  {
    FoundLength(m, at + 4, Packer.ReadUint32(m, at), ms, end);
  }

  lemma {:induction false} FoundLength(m: seq<byte>, at: nat, count: nat, ms: seq<seq<byte>>, end: nat)
    requires Packer.ReadRecords(m, at, count) == Packer.Found(ms, end)
    ensures |ms| == count && at <= end && (at <= |m| ==> end <= |m|)
    decreases count
  {
    if count > 0 {
      var size := Packer.ReadUint32(m, at);
      FoundLength(m, at + 4 + size, count - 1, ms[1..], end);
    }
  }

  // The next record, read from memory that is unchanged below `lo`.
  lemma RecordFound(m0: seq<byte>, m: seq<byte>, at: nat, ms: seq<seq<byte>>, end: nat, lo: nat)
    requires ms != [] && Packer.ReadRecords(m0, at, |ms|) == Packer.Found(ms, end)
    requires PageTables.Same(m0, m, 0, lo) && end <= lo
    ensures at + 4 + |ms[0]| <= end && Packer.ReadUint32(m, at) == |ms[0]|
    ensures m[at + 4..at + 4 + |ms[0]|] == ms[0]
    ensures Packer.ReadRecords(m0, at + 4 + |ms[0]|, |ms| - 1) == Packer.Found(ms[1..], end)
  {
    FoundLength(m0, at + 4 + |ms[0]|, |ms| - 1, ms[1..], end);
    PageTables.SameWithin(m0, m, 0, lo, at, at + 4);
    PageTables.SameWithin(m0, m, 0, lo, at + 4, at + 4 + |ms[0]|);
  }

  lemma ModuleLoaded(m0: seq<byte>, m: seq<byte>, ms: seq<seq<byte>>, targets: seq<nat>, i: nat, lo: nat)
    requires i < |ms| && Placeable(ms, targets, lo, |m|)
    requires PageTables.Same(m0, m, 0, lo) && LoadedUpTo(m, ms, targets, i)
    ensures PageTables.Same(m0, Blit(m, targets[i], ms[i]), 0, lo)
    ensures LoadedUpTo(Blit(m, targets[i], ms[i]), ms, targets, i + 1)
  {
    BlitApart(m, targets[i], ms[i], 0, lo);
    BlitInside(m, targets[i], ms[i]);
    forall j | 0 <= j < i
      ensures At(Blit(m, targets[i], ms[i]), targets[j], ms[j])
    {
      AtKept(m, targets[j], ms[j], targets[i], ms[i]);
    }
  }

  // ---------- the chain ----------

  // Setup code between the page tables and the last copy writes below the relocated loader, outside
  // of the table pages, and to the area from 640 KiB to 1 MiB.
  ghost predicate SetupWrites(noise: map<nat, byte>) {
    forall a :: a in noise ==>
      && (a < SAFE_AT || SAFE_AT + LOAD_SIZE <= a < KERNEL_AT)
      && !(PageTables.PML4 <= a < PageTables.PDPT + 0x1000) && !(PageTables.PD <= a < PageTables.PD_END)
  }

  method Setup(mem: array<byte>, noise: map<nat, byte>)
    requires MEMORY <= mem.Length && SetupWrites(noise) && PageTables.TablesBuilt(mem[..])
    modifies mem
    ensures PageTables.TablesBuilt(mem[..]) && PageTables.Same(old(mem[..]), mem[..], SAFE_AT, SAFE_AT + LOAD_SIZE)
  {
    ghost var m0 := mem[..];
    forall a | 0 <= a < mem.Length && a in noise {
      mem[a] := noise[a];
    }
    PageTables.TablesKept(m0, mem[..]);
  }

  // What the chain relies on in the files: the loader has its size and its first instructions,
  // loader and image fit into the 256 KiB that are loaded, and the modules fit between their
  // targets.
  ghost predicate Bootable(loader: seq<byte>, kernel: seq<byte>, ms: seq<seq<byte>>) {
    && |loader| == LOADER_SIZE && FromLE(loader[..4]) == MAGIC
    && LOADER_SIZE + |Packer.Image(kernel, ms)| <= LOAD_SIZE
    && |ms| <= 2
  }

  const TARGETS: seq<nat> := [USERLAND_CODE, SAMPLE_DATA]

  // From a disk with the loader and the packed kernel behind the directory to running memory: boot
  // sector, page tables, setup, last copy, module loading, clearing of the BSS.
  method BootMachine(disk: seq<byte>, mem: array<byte>, gdt: seq<byte>, patchAt: nat, noise: map<nat, byte>,
      endOfKernelBinary: nat, bss: nat, endOfKernel: nat,
      ghost loader: seq<byte>, ghost kernel: seq<byte>, ghost ms: seq<seq<byte>>)
      returns (booted: bool)
    requires MEMORY <= mem.Length && FIRST_SECTOR * SECTOR + LOAD_SIZE <= |disk|
    requires Bootable(loader, kernel, ms) && At(disk, FIRST_SECTOR * SECTOR, loader + Packer.Image(kernel, ms))
    requires |gdt| <= 0x1000 && LOAD_AT <= patchAt && patchAt + 4 <= LOAD_AT + LOADER_SIZE && SetupWrites(noise)
    requires endOfKernelBinary == KERNEL_AT + |kernel| <= bss <= endOfKernel <= USERLAND_CODE
    modifies mem
    ensures booted
    ensures At(mem[..], KERNEL_AT, kernel)
    ensures LoadedUpTo(mem[..], ms, TARGETS, |ms|)
    ensures PageTables.TablesBuilt(mem[..])
    ensures forall a :: bss <= a < endOfKernel ==> mem[a] == 0
  {
    hide At, PageTables.TablesBuilt, LoadedUpTo, SetupWrites, Packer.Image, Placeable;
    ghost var image := Packer.Image(kernel, ms);
    PayloadOnDisk(disk, mem[..], loader, image);
    booted := RunBootSector(disk, mem);
    ghost var m1 := mem[..];
    PageTables.BuildTables(mem, gdt, patchAt);
    ghost var m2 := mem[..];
    Setup(mem, noise);
    ImageUntouched(m1, m2, mem[..], image);
    ghost var m3 := mem[..];
    CopyKernel(mem);
    assert mem[..] == Blit(m3, KERNEL_AT, LastCopy(m3));
    ImageCopied(m3, image);
    ghost var m4 := mem[..];
    ImageFound(m4, kernel, ms);
    ModulesPlaceable(kernel, ms, mem.Length);
    LoadModules(mem, endOfKernelBinary, TARGETS, ms, KERNEL_AT + |image|, USERLAND_CODE);
    ghost var m5 := mem[..];
    ClearBytes(mem, bss, endOfKernel - bss);
    Finished(m4, m5, kernel, ms, bss, endOfKernel);
  }

  // The bytes the last copy moves.
  function LastCopy(m: seq<byte>): seq<byte>
    requires SAFE_AT + LOADER_SIZE + LOAD_SIZE <= |m|
  {
    m[SAFE_AT + LOADER_SIZE..SAFE_AT + LOADER_SIZE + LOAD_SIZE]
  }

  // The loaded sectors hold loader and image; relocated, the image lies behind the loader.
  lemma PayloadOnDisk(disk: seq<byte>, m: seq<byte>, loader: seq<byte>, image: seq<byte>)
    requires FIRST_SECTOR * SECTOR + LOAD_SIZE <= |disk| && SAFE_AT + LOAD_SIZE <= |m|
    requires |loader| == LOADER_SIZE && FromLE(loader[..4]) == MAGIC && LOADER_SIZE + |image| <= LOAD_SIZE
    requires At(disk, FIRST_SECTOR * SECTOR, loader + image)
    ensures
      var payload := disk[FIRST_SECTOR * SECTOR..FIRST_SECTOR * SECTOR + LOAD_SIZE];
      && FromLE(payload[..4]) == MAGIC
      && At(Blit(Blit(m, LOAD_AT, payload), SAFE_AT, payload), SAFE_AT + LOADER_SIZE, image)
  {
    var at := FIRST_SECTOR * SECTOR;
    var payload := disk[at..at + LOAD_SIZE];
    SliceOfSlice(disk, at, at + LOAD_SIZE, 0, LOADER_SIZE + |image|);
    var front := payload[0..LOADER_SIZE + |image|];
    assert front == loader + image;
    SliceOfSlice(payload, 0, LOADER_SIZE + |image|, 0, 4);
    assert front[0..4] == loader[..4];
    SliceOfSlice(payload, 0, LOADER_SIZE + |image|, LOADER_SIZE, LOADER_SIZE + |image|);
    assert front[LOADER_SIZE..LOADER_SIZE + |image|] == image;
    var loaded := Blit(m, LOAD_AT, payload);
    BlitInside(loaded, SAFE_AT, payload);
    SliceOfSlice(Blit(loaded, SAFE_AT, payload), SAFE_AT, SAFE_AT + LOAD_SIZE, LOADER_SIZE, LOADER_SIZE + |image|);
  }

  lemma AtSame(m: seq<byte>, m': seq<byte>, at: nat, bs: seq<byte>, lo: nat, hi: nat)
    requires At(m, at, bs) && PageTables.Same(m, m', lo, hi) && lo <= at && at + |bs| <= hi
    ensures At(m', at, bs)
  {
    PageTables.SameWithin(m, m', lo, hi, at, at + |bs|);
  }

  lemma ImageUntouched(m1: seq<byte>, m2: seq<byte>, m3: seq<byte>, image: seq<byte>)
    requires At(m1, SAFE_AT + LOADER_SIZE, image) && LOADER_SIZE + |image| <= LOAD_SIZE
    requires PageTables.Same(m1, m2, PageTables.PD_END, |m1|) && PageTables.Same(m2, m3, SAFE_AT, SAFE_AT + LOAD_SIZE)
    ensures At(m3, SAFE_AT + LOADER_SIZE, image)
  {
    AtSame(m1, m2, SAFE_AT + LOADER_SIZE, image, PageTables.PD_END, |m1|);
    AtSame(m2, m3, SAFE_AT + LOADER_SIZE, image, SAFE_AT, SAFE_AT + LOAD_SIZE);
  }

  // The last copy brings the image to the 1 MiB mark and leaves the page tables alone.
  lemma ImageCopied(m: seq<byte>, image: seq<byte>)
    requires At(m, SAFE_AT + LOADER_SIZE, image) && LOADER_SIZE + |image| <= LOAD_SIZE && MEMORY <= |m|
    requires PageTables.TablesBuilt(m)
    ensures
      var m' := Blit(m, KERNEL_AT, LastCopy(m));
      At(m', KERNEL_AT, image) && PageTables.TablesBuilt(m')
  {
    hide PageTables.TablesBuilt;
    var from := SAFE_AT + LOADER_SIZE;
    var m' := Blit(m, KERNEL_AT, LastCopy(m));
    BlitInside(m, KERNEL_AT, LastCopy(m));
    SliceOfSlice(m', KERNEL_AT, KERNEL_AT + LOAD_SIZE, 0, |image|);
    SliceOfSlice(m, from, from + LOAD_SIZE, 0, |image|);
    BlitApart(m, KERNEL_AT, LastCopy(m), PageTables.PML4, PageTables.PDPT + 0x1000);
    BlitApart(m, KERNEL_AT, LastCopy(m), PageTables.PD, PageTables.PD_END);
    PageTables.TablesKept(m, m');
  }

  // Behind the kernel in memory, the module list reads as it was packed.
  lemma ImageFound(m: seq<byte>, kernel: seq<byte>, ms: seq<seq<byte>>)
    requires At(m, KERNEL_AT, Packer.Image(kernel, ms)) && |Packer.Image(kernel, ms)| <= LOAD_SIZE && |ms| <= 2
    ensures Packer.ReadModules(m, KERNEL_AT + |kernel|) == Packer.Found(ms, KERNEL_AT + |Packer.Image(kernel, ms)|)
    ensures At(m, KERNEL_AT, kernel)
  {
    hide LE, FromLE, Packer.Records, Packer.ReadRecords;
    Packer.SizeField(|ms|);
    SmallModules(kernel, ms);
    var end := KERNEL_AT + |Packer.Image(kernel, ms)|;
    Packer.ThreeParts(m, KERNEL_AT, kernel, LE(|ms| % U32, 4), Packer.Records(ms));
    Packer.UnpackRecords(m, KERNEL_AT + |kernel| + 4, ms);
  }

  lemma SmallModules(kernel: seq<byte>, ms: seq<seq<byte>>)
    requires |Packer.Image(kernel, ms)| <= LOAD_SIZE
    ensures Packer.SmallSizes(ms) && forall i :: 0 <= i < |ms| ==> |ms[i]| <= LOAD_SIZE
  {
    RecordSizes(ms);
  }

  lemma {:induction false} RecordSizes(ms: seq<seq<byte>>)
    ensures forall i :: 0 <= i < |ms| ==> |ms[i]| <= |Packer.Records(ms)|
  {
    if ms != [] {
      RecordSizes(ms[1..]);
      assert forall i :: 0 < i < |ms| ==> ms[i] == ms[1..][i - 1];
    }
  }

  lemma ModulesPlaceable(kernel: seq<byte>, ms: seq<seq<byte>>, size: nat)
    requires |Packer.Image(kernel, ms)| <= LOAD_SIZE && |ms| <= 2 && MEMORY <= size
    ensures Placeable(ms, TARGETS, USERLAND_CODE, size)
  {
    SmallModules(kernel, ms);
  }

  // Loading the modules and clearing the BSS change neither the kernel nor the page tables, and
  // the clearing does not reach the modules.
  lemma Finished(m4: seq<byte>, m5: seq<byte>, kernel: seq<byte>, ms: seq<seq<byte>>, bss: nat, endOfKernel: nat)
    requires MEMORY <= |m4| && PageTables.Same(m4, m5, 0, USERLAND_CODE) && PageTables.TablesBuilt(m4)
    requires At(m4, KERNEL_AT, kernel) && KERNEL_AT + |kernel| <= bss <= endOfKernel <= USERLAND_CODE
    requires |ms| <= 2 && Placeable(ms, TARGETS, USERLAND_CODE, |m5|) && LoadedUpTo(m5, ms, TARGETS, |ms|)
    ensures
      var m6 := Blit(m5, bss, seq(endOfKernel - bss, _ => 0));
      && At(m6, KERNEL_AT, kernel) && LoadedUpTo(m6, ms, TARGETS, |ms|) && PageTables.TablesBuilt(m6)
      && forall a :: bss <= a < endOfKernel ==> m6[a] == 0
  {
    hide PageTables.TablesBuilt, At;
    var zeros := seq(endOfKernel - bss, _ => 0);
    var m6 := Blit(m5, bss, zeros);
    AtSame(m4, m5, KERNEL_AT, kernel, 0, USERLAND_CODE);
    AtKept(m5, KERNEL_AT, kernel, bss, zeros);
    forall i | 0 <= i < |ms|
      ensures At(m6, TARGETS[i], ms[i])
    {
      AtKept(m5, TARGETS[i], ms[i], bss, zeros);
    }
    PageTables.SameWithin(m4, m5, 0, USERLAND_CODE, PageTables.PML4, PageTables.PDPT + 0x1000);
    PageTables.SameWithin(m4, m5, 0, USERLAND_CODE, PageTables.PD, PageTables.PD_END);
    PageTables.TablesKept(m4, m5);
    BlitApart(m5, bss, zeros, PageTables.PML4, PageTables.PDPT + 0x1000);
    BlitApart(m5, bss, zeros, PageTables.PD, PageTables.PD_END);
    PageTables.TablesKept(m5, m6);
  }

  lemma AtTargets(m: seq<byte>, ms: seq<seq<byte>>)
    requires |ms| <= 2 && LoadedUpTo(m, ms, TARGETS, |ms|)
    ensures |ms| > 0 ==> At(m, 0x400000, ms[0])
    ensures |ms| > 1 ==> At(m, 0x500000, ms[1])
  {
    hide At;
  }

  // From files to running memory: pack, initialise a disk, boot from it.
  method InstallAndBoot(kernel: seq<byte>, modules: seq<seq<byte>>, mbr: seq<byte>, loader: seq<byte>, diskSize: nat,
      mem: array<byte>, gdt: seq<byte>, patchAt: nat, noise: map<nat, byte>, bss: nat, endOfKernel: nat)
      returns (booted: bool)
    requires MEMORY <= mem.Length && BootDisk.MINIMUM_DISK <= diskSize && SECTOR <= |mbr|
    requires Bootable(loader, kernel, modules)
    requires |gdt| <= 0x1000 && LOAD_AT <= patchAt && patchAt + 4 <= LOAD_AT + LOADER_SIZE && SetupWrites(noise)
    requires KERNEL_AT + |kernel| <= bss <= endOfKernel <= USERLAND_CODE
    modifies mem
    ensures booted
    ensures At(mem[..], 0x100000, kernel)
    ensures (|modules| > 0 ==> At(mem[..], 0x400000, modules[0])) && (|modules| > 1 ==> At(mem[..], 0x500000, modules[1]))
    ensures PageTables.TablesBuilt(mem[..])
    ensures forall a :: bss <= a < endOfKernel ==> mem[a] == 0
  {
    hide PageTables.TablesBuilt, LoadedUpTo, SetupWrites, BootDisk.DiskImage;
    var packed := Packer.BuildImage([kernel] + modules);
    assert ([kernel] + modules)[1..] == modules;
    var ret, disk := BootDisk.Initialize(diskSize, Some(mbr), Some(loader), Some(packed));
    BootDisk.ImageHolds(diskSize, mbr, loader, packed);
    booted := BootMachine(disk, mem, gdt, patchAt, noise, KERNEL_AT + |kernel|, bss, endOfKernel, loader, kernel, modules);
    AtTargets(mem[..], modules);
  }
}

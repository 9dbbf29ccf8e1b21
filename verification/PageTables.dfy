/** The page tables that the loader builds before it enters 64-bit mode. */
module PageTables {
  import opened Bytes

  const GIB: nat := 0x4000_0000
  const PAGE: nat := 0x20_0000

  const PML4: nat := 0x2000
  const PDPT: nat := 0x3000
  const PD: nat := 0x10000
  const PD_END: nat := 0x50000
  const GDT: nat := 0x1000
  // cr3, with its write-through flag
  const CR3: nat := 0x2008
  // Start of the higher half
  const HIGHER_HALF: nat := 0xFFFF_8000_0000_0000
  const STACK: nat := 0x8000

  // The 64-bit word `v` at address `a`.
  ghost predicate Quad(m: seq<byte>, a: nat, v: nat) {
    a + 8 <= |m| && m[a..a + 8] == LE(v, 8)
  }

  function PdpEntry(k: nat): nat { 0x10007 + 0x1000 * k }
  function PdEntry(i: nat): nat { 0x8F + PAGE * i }

  ghost predicate DirectoryUpTo(m: seq<byte>, n: nat) {
    forall i :: 0 <= i < n ==> Quad(m, PD + 8 * i, PdEntry(i))
  }

  ghost predicate PointersUpTo(m: seq<byte>, n: nat) {
    forall k :: 0 <= k < n ==> Quad(m, PDPT + 8 * k, PdpEntry(k))
  }

  ghost predicate Roots(m: seq<byte>) {
    Quad(m, PML4, 0x3007) && Quad(m, PML4 + 0x800, 0x3007)
  }

  // Both roots, 64 pointer entries and 32768 directory entries are in place.
  ghost predicate TablesBuilt(m: seq<byte>) {
    Roots(m) && PointersUpTo(m, 64) && DirectoryUpTo(m, 32768)
  }

  // ---------- the walk ----------

  function ReadQuad(m: seq<byte>, a: nat): nat {
    if a + 8 <= |m| then FromLE(m[a..a + 8]) else 0
  }

  // Bits 0 and 1: present, and open to writing.
  predicate Present(entry: nat) { entry % 4 == 3 }
  predicate PageSize(entry: nat) { entry / 128 % 2 == 1 }

  // Bits 51:12 of an entry: the table it points to.
  function TableAt(entry: nat): nat { entry / 0x1000 % 0x100_0000_0000 * 0x1000 }

  // Bits 51:21 of a directory entry: the number of the 2 MiB frame.
  function FrameOf(entry: nat): nat { entry / PAGE % 0x8000_0000 }

  datatype Translation = Page(physical: nat) | Fault

  // The 4-level walk: through the root table, the pointer table and the directory to a 2 MiB page.
  // (Larger and smaller pages end in Fault here; the tables have none.)
  function Walk(m: seq<byte>, cr3: nat, va: nat): Translation {
    WalkBy(m, cr3, va / 0x80_0000_0000 % 512, va / GIB % 512, va / PAGE % 512, va % PAGE)
  }

  function WalkBy(m: seq<byte>, cr3: nat, i4: nat, i3: nat, i2: nat, offset: nat): Translation {
    var e4 := ReadQuad(m, TableAt(cr3) + 8 * i4);
    if !Present(e4) then Fault
    else
      var e3 := ReadQuad(m, TableAt(e4) + 8 * i3);
      if !Present(e3) || PageSize(e3) then Fault
      else
        var e2 := ReadQuad(m, TableAt(e3) + 8 * i2);
        if !Present(e2) || !PageSize(e2) then Fault
        else Page(FrameOf(e2) * PAGE + offset)
  }

  lemma ReadsQuad(m: seq<byte>, a: nat, v: nat)
    requires Quad(m, a, v) && v < U64
    ensures ReadQuad(m, a) == v
  {
    assert Pow256(4) == U32;
    assert Pow256(8) == U64;
    RoundTripLE(v, 8);
  }

  lemma RootBits()
    ensures TableAt(CR3) == PML4 && TableAt(0x3007) == PDPT && Present(0x3007)
  {
  }

  lemma PointerBits(k: nat)
    requires k < 64
    ensures PdpEntry(k) < U64 && TableAt(PdpEntry(k)) == PD + 0x1000 * k
    ensures Present(PdpEntry(k)) && !PageSize(PdpEntry(k))
  {
    TwoBits(0x4001 + 0x400 * k);
    assert PdpEntry(k) == 4 * (0x4001 + 0x400 * k) + 3;
    assert PdpEntry(k) / 0x1000 == 0x10 + k;
    assert PdpEntry(k) / 128 == 512 + 32 * k;
  }

  lemma DirectoryBits(i: nat)
    requires i < 32768
    ensures PdEntry(i) < U64 && Present(PdEntry(i)) && PageSize(PdEntry(i))
    ensures FrameOf(PdEntry(i)) == i
  {
    DirectoryFlags(i);
    DirectoryAddress(i);
  }

  lemma DirectoryFlags(i: nat)
    ensures Present(PdEntry(i)) && PageSize(PdEntry(i))
  {
    TwoBits(35 + 0x8_0000 * i);
    SizeBit(8192 * i, 15);
    assert PdEntry(i) == 4 * (35 + 0x8_0000 * i) + 3 == 256 * (8192 * i) + 128 + 15;
  }

  lemma TwoBits(q: nat)
    ensures Present(4 * q + 3)
  {
  }

  lemma SizeBit(q: nat, r: nat)
    requires r < 128
    ensures PageSize(256 * q + 128 + r) && !PageSize(256 * q + r)
  {
    assert (256 * q + 128 + r) / 128 == 2 * q + 1;
    assert (256 * q + r) / 128 == 2 * q;
  }

  lemma DirectoryAddress(i: nat)
    requires i < 32768
    ensures PdEntry(i) < U64 && FrameOf(PdEntry(i)) == i
  {
    assert PdEntry(i) / PAGE == i;
  }

  lemma Indices(va: nat)
    requires va < 64 * GIB
    ensures va / 0x80_0000_0000 % 512 == 0
    ensures va / GIB % 512 == va / GIB < 64
    ensures va / PAGE < 32768
    ensures 0x1000 * (va / GIB) + 8 * (va / PAGE % 512) == 8 * (va / PAGE)
    ensures va / PAGE * PAGE + va % PAGE == va
  {
    assert va / PAGE / 512 == va / GIB;
  }

  lemma HigherIndices(va: nat)
    requires va < 64 * GIB
    ensures
      var h := va + HIGHER_HALF;
      && h / 0x80_0000_0000 % 512 == 256
      && h / GIB % 512 == va / GIB && h / PAGE % 512 == va / PAGE % 512 && h % PAGE == va % PAGE
  {
    var h := va + HIGHER_HALF;
    assert HIGHER_HALF == 0x1FF_FF00 * 0x80_0000_0000;
    assert h / 0x80_0000_0000 == 0x1FF_FF00;
    assert h / GIB == va / GIB + 0x1FF_FF00 * 512;
    assert h / PAGE == va / PAGE + 0x1FF_FF00 * 512 * 512;
    assert (va / PAGE + 0x1FF_FF00 * 512 * 512) % 512 == va / PAGE % 512;
  }

  // Every address below 64 GiB translates to itself, and so does its image in the higher half.
  lemma IdentityMap(m: seq<byte>, va: nat)
    requires TablesBuilt(m) && va < 0x10_0000_0000
    ensures Walk(m, 0x2008, va) == Page(va)
    ensures Walk(m, 0x2008, va + 0xFFFF_8000_0000_0000) == Page(va)
  {
    Indices(va);
    HigherIndices(va);
    WalkTables(m, 0, va / GIB, va / PAGE, va / PAGE % 512, va % PAGE);
    WalkTables(m, 256, va / GIB, va / PAGE, va / PAGE % 512, va % PAGE);
    hide TablesBuilt, WalkBy;
  }

  // From either root entry, the walk by indices.
  lemma WalkTables(m: seq<byte>, i4: nat, k: nat, i: nat, j: nat, offset: nat)
    requires TablesBuilt(m) && (i4 == 0 || i4 == 256) && k < 64 && i < 32768 && 0x1000 * k + 8 * j == 8 * i
    ensures WalkBy(m, CR3, i4, k, j, offset) == Page(i * PAGE + offset)
  {
    hide TablesBuilt, TableAt, Present, PageSize, ReadQuad, PdpEntry, PdEntry, FrameOf, Quad;
    RootRead(m, i4);
    RootBits();
    LowerReads(m, k, i, j);
    PointerBits(k);
    DirectoryBits(i);
  }

  lemma RootRead(m: seq<byte>, i4: nat)
    requires TablesBuilt(m) && (i4 == 0 || i4 == 256)
    ensures ReadQuad(m, PML4 + 8 * i4) == 0x3007
  {
    hide PointersUpTo, DirectoryUpTo, ReadQuad;
    ReadsQuad(m, PML4 + 8 * i4, 0x3007);
  }

  lemma LowerReads(m: seq<byte>, k: nat, i: nat, j: nat)
    requires TablesBuilt(m) && k < 64 && i < 32768 && 0x1000 * k + 8 * j == 8 * i
    ensures ReadQuad(m, PDPT + 8 * k) == PdpEntry(k)
    ensures ReadQuad(m, TableAt(PdpEntry(k)) + 8 * j) == PdEntry(i)
  {
    hide TablesBuilt, TableAt, Present, PageSize, ReadQuad, PdpEntry, PdEntry;
    PointerRead(m, k);
    DirectoryRead(m, i);
    PointerBits(k);
  }

  lemma PointerRead(m: seq<byte>, k: nat)
    requires TablesBuilt(m) && k < 64
    ensures ReadQuad(m, PDPT + 8 * k) == PdpEntry(k)
  {
    PointerBits(k);
    ReadsQuad(m, PDPT + 8 * k, PdpEntry(k));
  }

  lemma DirectoryRead(m: seq<byte>, i: nat)
    requires TablesBuilt(m) && i < 32768
    ensures ReadQuad(m, PD + 8 * i) == PdEntry(i)
  {
    DirectoryBits(i);
    ReadsQuad(m, PD + 8 * i, PdEntry(i));
  }

  // ---------- building them ----------

  // One byte range unchanged.
  ghost predicate Same(m: seq<byte>, m': seq<byte>, lo: nat, hi: nat) {
    lo <= hi <= |m| == |m'| && m'[lo..hi] == m[lo..hi]
  }

  lemma QuadKept(m: seq<byte>, m': seq<byte>, a: nat, v: nat)
    requires Quad(m, a, v) && Same(m, m', a, a + 8)
    ensures Quad(m', a, v)
  {
  }

  lemma LEUnfold(n: nat, w: nat)
    requires 0 < w
    ensures LE(n, w) == [n % 256] + LE(n / 256, w - 1)
  {
  }

  lemma DropByte(n: nat, w: nat)
    requires 0 < w && n < Pow256(w)
    ensures n / 256 < Pow256(w - 1)
  {
  }

  // Two dwords make the quad word of a 32-bit value.
  lemma {:induction false} ZeroExtended(n: nat, w: nat)
    requires n < Pow256(w)
    ensures LE(n, w) + LE(0, 4) == LE(n, w + 4)
    decreases w
  {
    hide LE, Pow256;
    if w == 0 {
      NoBytes(n);
    } else {
      DropByte(n, w);
      ZeroExtended(n / 256, w - 1);
      LEUnfold(n, w);
      LEUnfold(n, w + 4);
      Cons(n % 256, LE(n / 256, w - 1), LE(0, 4));
    }
  }

  lemma NoBytes(n: nat)
    requires n < Pow256(0)
    ensures n == 0 && LE(n, 0) + LE(0, 4) == LE(n, 4)
  {
    hide LE;
    LENone(n);
  }

  lemma LENone(n: nat)
    ensures LE(n, 0) == []
  {
  }

  lemma Cons(b: byte, x: seq<byte>, y: seq<byte>)
    ensures [b] + x + y == [b] + (x + y)
  {
  }

  // stosd; push eax; xor eax, eax; stosd; pop eax: one entry of 32 significant bits.
  method StoreEntry(mem: array<byte>, edi: nat, eax: nat) returns (eax': nat, edi': nat)
    requires STACK <= mem.Length && edi + 8 <= mem.Length && (edi + 8 <= STACK - 4 || STACK <= edi) && eax < U32
    modifies mem
    ensures eax' == eax && edi' == edi + 8
    ensures mem[..] == EntryStored(old(mem[..]), edi, eax)
  {
    assert U32 == Pow256(4);
    RoundTripLE(eax, 4);
    Store(mem, edi, LE(eax, 4));
    Store(mem, STACK - 4, LE(eax, 4));
    ghost var pushed := mem[..];
    BlitInside(old(mem[..]), STACK - 4, LE(eax, 4));
    Store(mem, edi + 4, LE(0, 4));
    BlitApart(pushed, edi + 4, LE(0, 4), STACK - 4, STACK);
    assert mem[..][STACK - 4..STACK] == mem[STACK - 4..STACK];
    eax' := FromLE(mem[STACK - 4..STACK]);
    edi' := edi + 8;
  }

  function EntryStored(m: seq<byte>, edi: nat, eax: nat): seq<byte>
    requires STACK <= |m| && edi + 8 <= |m|
  {
    Blit(Blit(Blit(m, edi, LE(eax, 4)), STACK - 4, LE(eax, 4)), edi + 4, LE(0, 4))
  }

  lemma StoredSame(m: seq<byte>, edi: nat, eax: nat, lo: nat, hi: nat)
    requires STACK <= |m| && edi + 8 <= |m| && lo <= hi <= |m|
    requires (hi <= edi || edi + 8 <= lo) && (hi <= STACK - 4 || STACK <= lo)
    ensures Same(m, EntryStored(m, edi, eax), lo, hi)
  {
    var m1 := Blit(m, edi, LE(eax, 4));
    var m2 := Blit(m1, STACK - 4, LE(eax, 4));
    BlitApart(m, edi, LE(eax, 4), lo, hi);
    BlitApart(m1, STACK - 4, LE(eax, 4), lo, hi);
    BlitApart(m2, edi + 4, LE(0, 4), lo, hi);
  }

  lemma StoredQuad(m: seq<byte>, edi: nat, eax: nat)
    requires STACK <= |m| && edi + 8 <= |m| && (edi + 8 <= STACK - 4 || STACK <= edi) && eax < U32
    ensures Quad(EntryStored(m, edi, eax), edi, eax)
  {
    assert U32 == Pow256(4);
    ZeroExtended(eax, 4);
    hide LE, Pow256;
    var m1 := Blit(m, edi, LE(eax, 4));
    var m2 := Blit(m1, STACK - 4, LE(eax, 4));
    var m3 := Blit(m2, edi + 4, LE(0, 4));
    BlitInside(m, edi, LE(eax, 4));
    BlitApart(m1, STACK - 4, LE(eax, 4), edi, edi + 4);
    BlitApart(m2, edi + 4, LE(0, 4), edi, edi + 4);
    BlitInside(m2, edi + 4, LE(0, 4));
    assert m3[edi..edi + 8] == m3[edi..edi + 4] + m3[edi + 4..edi + 8];
  }

  lemma SameWithin(m: seq<byte>, m': seq<byte>, lo: nat, hi: nat, a: nat, b: nat)
    requires Same(m, m', lo, hi) && lo <= a <= b <= hi
    ensures Same(m, m', a, b)
  {
    SliceOfSlice(m, lo, hi, a - lo, b - lo);
    SliceOfSlice(m', lo, hi, a - lo, b - lo);
  }

  lemma SameTrans(m: seq<byte>, m1: seq<byte>, m2: seq<byte>, lo: nat, hi: nat)
    requires Same(m, m1, lo, hi) && Same(m1, m2, lo, hi)
    ensures Same(m, m2, lo, hi)
  {
  }

  lemma RootsKept(m: seq<byte>, m': seq<byte>)
    requires Roots(m) && Same(m, m', PML4, PDPT)
    ensures Roots(m')
  {
    SameWithin(m, m', PML4, PDPT, PML4, PML4 + 8);
    SameWithin(m, m', PML4, PDPT, PML4 + 0x800, PML4 + 0x808);
  }

  lemma PointersKept(m: seq<byte>, m': seq<byte>, n: nat)
    requires n <= 64 && PointersUpTo(m, n) && Same(m, m', PDPT, PDPT + 8 * n)
    ensures PointersUpTo(m', n)
  {
    hide Quad, PdpEntry, Same;
    forall k | 0 <= k < n
      ensures Quad(m', PDPT + 8 * k, PdpEntry(k))
    {
      SameWithin(m, m', PDPT, PDPT + 8 * n, PDPT + 8 * k, PDPT + 8 * k + 8);
      QuadKept(m, m', PDPT + 8 * k, PdpEntry(k));
    }
  }

  lemma DirectoryKept(m: seq<byte>, m': seq<byte>, n: nat)
    requires DirectoryUpTo(m, n) && Same(m, m', PD, PD + 8 * n)
    ensures DirectoryUpTo(m', n)
  {
    hide Quad, PdEntry, Same;
    forall i | 0 <= i < n
      ensures Quad(m', PD + 8 * i, PdEntry(i))
    {
      SameWithin(m, m', PD, PD + 8 * n, PD + 8 * i, PD + 8 * i + 8);
      QuadKept(m, m', PD + 8 * i, PdEntry(i));
    }
  }

  // Tables once built stay built while nothing is written to their pages.
  lemma TablesKept(m: seq<byte>, m': seq<byte>)
    requires TablesBuilt(m) && Same(m, m', PML4, PDPT + 0x1000) && Same(m, m', PD, PD_END)
    ensures TablesBuilt(m')
  {
    SameWithin(m, m', PML4, PDPT + 0x1000, PML4, PDPT);
    SameWithin(m, m', PML4, PDPT + 0x1000, PDPT, PDPT + 8 * 64);
    RootsKept(m, m');
    PointersKept(m, m', 64);
    DirectoryKept(m, m', 32768);
  }

  lemma NothingYet(m: seq<byte>)
    ensures PointersUpTo(m, 0) && DirectoryUpTo(m, 0)
    ensures forall lo: nat, hi: nat :: lo <= hi <= |m| ==> Same(m, m, lo, hi)
  {
  }

  // create_pdpe: 64 pointer entries.
  method CreatePointers(mem: array<byte>)
    requires PD_END <= mem.Length && Roots(mem[..])
    modifies mem
    ensures Roots(mem[..]) && PointersUpTo(mem[..], 64)
    ensures Same(old(mem[..]), mem[..], PD, mem.Length) && Same(old(mem[..]), mem[..], 0, PML4)
  {
    hide Roots, PointersUpTo, EntryStored, Same;
    NothingYet(mem[..]);
    var ecx, edi, eax := 64, PDPT, 0x10007;
    while ecx != 0
      invariant ecx <= 64 && edi == PDPT + 8 * (64 - ecx) && eax == PdpEntry(64 - ecx)
      invariant Roots(mem[..]) && PointersUpTo(mem[..], 64 - ecx)
      invariant Same(old(mem[..]), mem[..], PD, mem.Length) && Same(old(mem[..]), mem[..], 0, PML4)
    {
      ghost var m, k := mem[..], 64 - ecx;
      ghost var a := edi;
      eax, edi := StoreEntry(mem, edi, eax);
      PointerStored(m, k);
      StoredSame(m, a, eax, PD, mem.Length);
      SameTrans(old(mem[..]), m, mem[..], PD, mem.Length);
      StoredSame(m, a, eax, 0, PML4);
      SameTrans(old(mem[..]), m, mem[..], 0, PML4);
      eax := (eax + 0x1000) % U32;
      ecx := ecx - 1;
    }
  }

  lemma PointerStored(m: seq<byte>, k: nat)
    requires PD_END <= |m| && k < 64 && Roots(m) && PointersUpTo(m, k)
    ensures
      var m' := EntryStored(m, PDPT + 8 * k, PdpEntry(k));
      Roots(m') && PointersUpTo(m', k + 1)
  {
    hide Roots, EntryStored, Same, Quad;
    var m' := EntryStored(m, PDPT + 8 * k, PdpEntry(k));
    StoredSame(m, PDPT + 8 * k, PdpEntry(k), PML4, PDPT);
    RootsKept(m, m');
    StoredSame(m, PDPT + 8 * k, PdpEntry(k), PDPT, PDPT + 8 * k);
    PointersKept(m, m', k);
    StoredQuad(m, PDPT + 8 * k, PdpEntry(k));
  }

  // pd_again: the first 2048 directory entries, 32 bits at a time.
  method CreateDirectory32(mem: array<byte>)
    requires PD_END <= mem.Length && Roots(mem[..]) && PointersUpTo(mem[..], 64)
    modifies mem
    ensures Roots(mem[..]) && PointersUpTo(mem[..], 64) && DirectoryUpTo(mem[..], 2048)
    ensures Same(old(mem[..]), mem[..], PD_END, mem.Length) && Same(old(mem[..]), mem[..], 0, PML4)
  {
    hide Roots, PointersUpTo, DirectoryUpTo, EntryStored, Same;
    NothingYet(mem[..]);
    var edi, eax, ecx := PD, 0x8F, 0;
    while true
      invariant ecx < 2048 && edi == PD + 8 * ecx && eax == PdEntry(ecx)
      invariant Roots(mem[..]) && PointersUpTo(mem[..], 64) && DirectoryUpTo(mem[..], ecx)
      invariant Same(old(mem[..]), mem[..], PD_END, mem.Length) && Same(old(mem[..]), mem[..], 0, PML4)
      decreases 2048 - ecx
    {
      ghost var m := mem[..];
      ghost var a := edi;
      eax, edi := StoreEntry(mem, edi, eax);
      DirectoryStored(m, ecx);
      StoredSame(m, a, eax, PD_END, mem.Length);
      SameTrans(old(mem[..]), m, mem[..], PD_END, mem.Length);
      StoredSame(m, a, eax, 0, PML4);
      SameTrans(old(mem[..]), m, mem[..], 0, PML4);
      eax := (eax + 0x20_0000) % U32;
      ecx := ecx + 1;
      if ecx == 2048 { break; }
    }
  }

  lemma DirectoryStored(m: seq<byte>, i: nat)
    requires PD_END <= |m| && i < 2048 && Roots(m) && PointersUpTo(m, 64) && DirectoryUpTo(m, i)
    ensures
      var m' := EntryStored(m, PD + 8 * i, PdEntry(i));
      Roots(m') && PointersUpTo(m', 64) && DirectoryUpTo(m', i + 1)
  {
    hide Roots, EntryStored, Same, Quad, PointersUpTo;
    var m' := EntryStored(m, PD + 8 * i, PdEntry(i));
    StoredSame(m, PD + 8 * i, PdEntry(i), PML4, PDPT);
    RootsKept(m, m');
    StoredSame(m, PD + 8 * i, PdEntry(i), PDPT, PDPT + 8 * 64);
    PointersKept(m, m', 64);
    StoredSame(m, PD + 8 * i, PdEntry(i), PD, PD + 8 * i);
    DirectoryKept(m, m', i);
    StoredQuad(m, PD + 8 * i, PdEntry(i));
  }

  // buildem: the remaining 30720 entries, 64 bits at a time.
  method CreateDirectory64(mem: array<byte>)
    requires PD_END <= mem.Length && Roots(mem[..]) && PointersUpTo(mem[..], 64) && DirectoryUpTo(mem[..], 2048)
    modifies mem
    ensures TablesBuilt(mem[..]) && Same(old(mem[..]), mem[..], PD_END, mem.Length) && Same(old(mem[..]), mem[..], 0, PD)
  {
    hide Roots, PointersUpTo, DirectoryUpTo, Blit, LE;
    var rcx, rax, rdi := 0, 0x1_0000_008F, 0x14000;
    while true
      invariant rcx < 30720 && rdi == PD + 8 * (2048 + rcx) && rax == PdEntry(2048 + rcx)
      invariant Roots(mem[..]) && PointersUpTo(mem[..], 64) && DirectoryUpTo(mem[..], 2048 + rcx)
      invariant Same(old(mem[..]), mem[..], PD_END, mem.Length) && Same(old(mem[..]), mem[..], 0, PD)
      decreases 30720 - rcx
    {
      ghost var m := mem[..];
      Store(mem, rdi, LE(rax, 8));
      QuadStored(m, 2048 + rcx);
      BlitApart(m, rdi, LE(rax, 8), PD_END, mem.Length);
      SameTrans(old(mem[..]), m, mem[..], PD_END, mem.Length);
      BlitApart(m, rdi, LE(rax, 8), 0, PD);
      SameTrans(old(mem[..]), m, mem[..], 0, PD);
      rdi := rdi + 8;
      rax := (rax + 0x20_0000) % U64;
      rcx := rcx + 1;
      if rcx == 30720 { break; }
    }
  }

  lemma QuadStored(m: seq<byte>, i: nat)
    requires PD_END <= |m| && i < 32768 && Roots(m) && PointersUpTo(m, 64) && DirectoryUpTo(m, i)
    ensures
      var m' := Blit(m, PD + 8 * i, LE(PdEntry(i), 8));
      Roots(m') && PointersUpTo(m', 64) && DirectoryUpTo(m', i + 1)
  {
    hide Roots, Quad, PointersUpTo, LE;
    var q := LE(PdEntry(i), 8);
    var m' := Blit(m, PD + 8 * i, q);
    BlitApart(m, PD + 8 * i, q, PML4, PDPT);
    RootsKept(m, m');
    BlitApart(m, PD + 8 * i, q, PDPT, PDPT + 8 * 64);
    PointersKept(m, m', 64);
    BlitApart(m, PD + 8 * i, q, PD, PD + 8 * i);
    DirectoryKept(m, m', i);
    BlitQuad(m, PD + 8 * i, PdEntry(i));
  }

  lemma BlitQuad(m: seq<byte>, a: nat, v: nat)
    requires a + 8 <= |m|
    ensures Quad(Blit(m, a, LE(v, 8)), a, v)
  {
    BlitInside(m, a, LE(v, 8));
  }

  function Zeros(n: nat): (r: seq<byte>)
    ensures |r| == n
  {
    seq(n, _ => 0)
  }

  // The two root entries, for the lower and the higher half.
  method StoreRoots(mem: array<byte>)
    requires PD_END <= mem.Length
    modifies mem
    ensures Roots(mem[..]) && Same(old(mem[..]), mem[..], PD_END, mem.Length) && Same(old(mem[..]), mem[..], 0, PML4)
  {
    ghost var m0 := mem[..];
    assert Pow256(4) == U32;
    ZeroExtended(0x3007, 4);
    hide LE, Pow256;
    Store(mem, PML4, LE(0x3007, 4) + LE(0, 4));
    ghost var m1 := mem[..];
    Store(mem, PML4 + 0x800, LE(0x3007, 4) + LE(0, 4));
    BlitInside(m0, PML4, LE(0x3007, 8));
    BlitApart(m1, PML4 + 0x800, LE(0x3007, 8), PML4, PML4 + 8);
    BlitInside(m1, PML4 + 0x800, LE(0x3007, 8));
    BlitApart(m0, PML4, LE(0x3007, 8), PD_END, mem.Length);
    BlitApart(m1, PML4 + 0x800, LE(0x3007, 8), PD_END, mem.Length);
    BlitApart(m0, PML4, LE(0x3007, 8), 0, PML4);
    BlitApart(m1, PML4 + 0x800, LE(0x3007, 8), 0, PML4);
  }

  // The clearing of low memory and the copy of the GDT.
  method PrepareLow(mem: array<byte>, gdt: seq<byte>)
    requires PD_END <= mem.Length && |gdt| <= 0x1000
    modifies mem
    ensures Same(old(mem[..]), mem[..], PD_END, mem.Length)
    ensures mem[..0x1000] == Zeros(0x1000) && mem[0x1000..0x1000 + |gdt|] == gdt
  {
    ghost var m0 := mem[..];
    Store(mem, 0, Zeros(0x1000));
    ghost var m1 := mem[..];
    Store(mem, PD, Zeros(0x40000));
    ghost var m2 := mem[..];
    Store(mem, GDT, gdt);
    BlitApart(m0, 0, Zeros(0x1000), PD_END, mem.Length);
    BlitApart(m1, PD, Zeros(0x40000), PD_END, mem.Length);
    BlitApart(m2, GDT, gdt, PD_END, mem.Length);
    BlitInside(m2, GDT, gdt);
    BlitInside(m0, 0, Zeros(0x1000));
    BlitApart(m1, PD, Zeros(0x40000), 0, 0x1000);
    BlitApart(m2, GDT, gdt, 0, 0x1000);
    assert m1[0..0x1000] == m1[..0x1000] && mem[..0x1000] == mem[0..0x1000];
  }

  // The whole construction: clear, place the GDT, then fill the tables level by level. In between
  // the loader patches its own entry point at `patchAt`.
  method BuildTables(mem: array<byte>, gdt: seq<byte>, patchAt: nat)
    requires PD_END <= mem.Length && |gdt| <= 0x1000 && STACK <= patchAt && patchAt + 4 <= PD
    modifies mem
    ensures TablesBuilt(mem[..]) && Same(old(mem[..]), mem[..], PD_END, mem.Length)
    ensures mem[..0x1000] == Zeros(0x1000) && mem[0x1000..0x1000 + |gdt|] == gdt
    ensures mem[patchAt..patchAt + 4] == [0x90, 0x90, 0x90, 0x90]
  {
    hide Roots, PointersUpTo, DirectoryUpTo, TablesBuilt, Same;
    PrepareLow(mem, gdt);
    ghost var m0 := mem[..];
    StoreRoots(mem);
    ghost var m1 := mem[..];
    CreatePointers(mem);
    SameWithin(m1, mem[..], PD, mem.Length, PD_END, mem.Length);
    ghost var m2 := mem[..];
    CreateDirectory32(mem);
    ghost var m3 := mem[..];
    PatchEntry(mem, patchAt);
    ghost var m4 := mem[..];
    CreateDirectory64(mem);
    SameWithin(m4, mem[..], 0, PD, 0, PML4);
    SameWithin(m4, mem[..], 0, PD, patchAt, patchAt + 4);
    KeptLow([m0, m1, m2, m3, m4, mem[..]], gdt);
    PatchKept(m4, mem[..], patchAt);
    KeptHigh([old(mem[..]), m0, m1, m2, m3, m4, mem[..]]);
  }

  lemma PatchKept(m: seq<byte>, m': seq<byte>, patchAt: nat)
    requires Same(m, m', patchAt, patchAt + 4)
    ensures m'[patchAt..patchAt + 4] == m[patchAt..patchAt + 4]
  {
  }

  // What holds of the low memory after its preparation holds after all stages.
  lemma KeptLow(ms: seq<seq<byte>>, gdt: seq<byte>)
    requires |ms| == 6 && |gdt| <= 0x1000 && PD_END <= |ms[0]|
    requires forall i :: 0 < i < 6 ==> Step(ms, i, 0, PML4)
    requires ms[0][..0x1000] == Zeros(0x1000) && ms[0][0x1000..0x1000 + |gdt|] == gdt
    ensures |ms[5]| == |ms[0]| && ms[5][..0x1000] == Zeros(0x1000) && ms[5][0x1000..0x1000 + |gdt|] == gdt
  {
    hide Zeros;
    AllSteps(ms, 0, PML4);
    SameWithin(ms[0], ms[5], 0, PML4, 0, 0x1000);
    SameWithin(ms[0], ms[5], 0, PML4, 0x1000, 0x1000 + |gdt|);
    assert ms[5][0..0x1000] == ms[5][..0x1000] && ms[0][0..0x1000] == ms[0][..0x1000];
  }

  lemma KeptHigh(ms: seq<seq<byte>>)
    requires |ms| == 7 && forall i :: 0 < i < 7 ==> Step(ms, i, PD_END, |ms[0]|)
    ensures Same(ms[0], ms[6], PD_END, |ms[0]|)
  {
    AllSteps(ms, PD_END, |ms[0]|);
  }

  ghost predicate Step(ms: seq<seq<byte>>, i: int, lo: nat, hi: nat)
    requires 0 < i < |ms|
  {
    Same(ms[i - 1], ms[i], lo, hi)
  }

  lemma {:induction false} AllSteps(ms: seq<seq<byte>>, lo: nat, hi: nat)
    requires |ms| > 1 && forall i :: 0 < i < |ms| ==> Step(ms, i, lo, hi)
    ensures Same(ms[0], ms[|ms| - 1], lo, hi)
    decreases |ms|
  {
    hide Same;
    var n := |ms| - 1;
    assert Step(ms, n, lo, hi);
    if n > 1 {
      var front := ms[..n];
      forall i | 0 < i < n
        ensures Step(front, i, lo, hi)
      {
        assert Step(ms, i, lo, hi);
      }
      AllSteps(front, lo, hi);
      SameTrans(ms[0], ms[n - 1], ms[n], lo, hi);
    }
  }

  // The loader's own entry point, between the two directory loops.
  method PatchEntry(mem: array<byte>, patchAt: nat)
    requires PD_END <= mem.Length && STACK <= patchAt && patchAt + 4 <= PD
    requires Roots(mem[..]) && PointersUpTo(mem[..], 64) && DirectoryUpTo(mem[..], 2048)
    modifies mem
    ensures Roots(mem[..]) && PointersUpTo(mem[..], 64) && DirectoryUpTo(mem[..], 2048)
    ensures mem[patchAt..patchAt + 4] == [0x90, 0x90, 0x90, 0x90]
    ensures Same(old(mem[..]), mem[..], PD_END, mem.Length) && Same(old(mem[..]), mem[..], 0, PML4)
  {
    hide Roots, PointersUpTo, DirectoryUpTo;
    ghost var m2 := mem[..];
    Store(mem, patchAt, [0x90, 0x90, 0x90, 0x90]);
    BlitInside(m2, patchAt, [0x90, 0x90, 0x90, 0x90]);
    BlitApart(m2, patchAt, [0x90, 0x90, 0x90, 0x90], 0, PML4);
    BlitApart(m2, patchAt, [0x90, 0x90, 0x90, 0x90], PML4, PDPT);
    BlitApart(m2, patchAt, [0x90, 0x90, 0x90, 0x90], PDPT, PDPT + 8 * 64);
    BlitApart(m2, patchAt, [0x90, 0x90, 0x90, 0x90], PD, PD + 8 * 2048);
    BlitApart(m2, patchAt, [0x90, 0x90, 0x90, 0x90], PD_END, mem.Length);
    RootsKept(m2, mem[..]);
    PointersKept(m2, mem[..], 64);
    DirectoryKept(m2, mem[..], 2048);
  }
}

/** The copies that bring the packed kernel from the disk to its place in memory. */
module BootStages {
  import opened Bytes

  const SECTOR: nat := 512
  const SECTORS: nat := 512
  const FIRST_SECTOR: nat := 16
  const LOAD_AT: nat := 0x8000
  const LOAD_SIZE: nat := 262144
  const SAFE_AT: nat := 0x60000
  const KERNEL_AT: nat := 0x100000
  const LOADER_SIZE: nat := 6144
  const QUADWORDS: nat := 0x8000
  const MAGIC: nat := 0xC03166FA
  const U16: nat := 0x1_0000

  // Real-mode address of segment:offset.
  function Linear(segment: nat, offset: nat): nat {
    segment * 16 + offset
  }

  lemma BlitMore(m: seq<byte>, at: nat, a: seq<byte>, b: seq<byte>)
    requires at + |a| + |b| <= |m|
    ensures Blit(Blit(m, at, a), at + |a|, b) == Blit(m, at, a + b)
  {
  }

  // A copy of part of `src` continued by its next part.
  lemma BlitSlice(m: seq<byte>, at: nat, src: seq<byte>, from: nat, mid: nat, to: nat)
    requires from <= mid <= to <= |src| && at + (to - from) <= |m|
    ensures Blit(Blit(m, at, src[from..mid]), at + (mid - from), src[mid..to]) == Blit(m, at, src[from..to])
  {
    BlitMore(m, at, src[from..mid], src[mid..to]);
    assert src[from..mid] + src[mid..to] == src[from..to];
  }

  lemma BlitNone(m: seq<byte>, at: nat)
    requires at <= |m|
    ensures Blit(m, at, []) == m
  {
  }

  // One more step of a forward copy inside the memory: the next `k` bytes are still the old ones.
  lemma CopyStep(m0: seq<byte>, d: nat, s: nat, n: nat, k: nat)
    requires d + n + k <= |m0| && s + n + k <= |m0| && (d <= s || s + n + k <= d)
    ensures
      var m := Blit(m0, d, m0[s..s + n]);
      && m[s + n..s + n + k] == m0[s + n..s + n + k]
      && Blit(m, d + n, m[s + n..s + n + k]) == Blit(m0, d, m0[s..s + n + k])
  {
    hide Blit;
    BlitApart(m0, d, m0[s..s + n], s + n, s + n + k);
    BlitSlice(m0, d, m0, s, s + n, s + n + k);
  }

  // ---------- the boot sector ----------

  // readsector for one sector: the BIOS puts it at es:cx, then ebx and es:cx move on.
  method ReadSector(disk: seq<byte>, mem: array<byte>, ebx: nat, es: nat, cx: nat) returns (ebx': nat, es': nat, cx': nat)
    requires (ebx + 1) * SECTOR <= |disk| && Linear(es, cx) + SECTOR <= mem.Length
    requires ebx < U32 && es < U16 && cx < U16
    modifies mem
    ensures mem[..] == Blit(old(mem[..]), Linear(es, cx), disk[ebx * SECTOR..(ebx + 1) * SECTOR])
    ensures ebx' == (ebx + 1) % U32 && cx' == (cx + SECTOR) % U16
    ensures es' == if cx + SECTOR < U16 then es else (es / 256 + 0x10) % 256 * 256 + es % 256
  {
    Store(mem, Linear(es, cx), disk[ebx * SECTOR..(ebx + 1) * SECTOR]);
    ebx' := (ebx + 1) % U32;
    cx' := (cx + SECTOR) % U16;
    es' := es;
    if cx + SECTOR >= U16 {
      var dh, dl := es / 256, es % 256;
      dh := (dh + 0x10) % 256;
      es' := dh * 256 + dl;
    }
  }

  // Position of sector `i` of the load in real-mode terms.
  function SegmentOf(i: nat): nat { 0x1000 * ((64 + i) / 128) }
  function OffsetOf(i: nat): nat { SECTOR * ((64 + i) % 128) }

  lemma SegmentStep(i: nat)
    requires i < SECTORS
    ensures SegmentOf(i) < U16 && OffsetOf(i) < U16 && Linear(SegmentOf(i), OffsetOf(i)) == LOAD_AT + SECTOR * i
    ensures OffsetOf(i + 1) == (OffsetOf(i) + SECTOR) % U16
    ensures SegmentOf(i + 1) ==
      if OffsetOf(i) + SECTOR < U16 then SegmentOf(i)
      else (SegmentOf(i) / 256 + 0x10) % 256 * 256 + SegmentOf(i) % 256
  {
    var q, r := (64 + i) / 128, (64 + i) % 128;
    assert q <= 4 && 64 + i == 128 * q + r;
    if r == 127 {
      assert (64 + i + 1) / 128 == q + 1 && (64 + i + 1) % 128 == 0;
    } else {
      assert (64 + i + 1) / 128 == q && (64 + i + 1) % 128 == r + 1;
    }
    assert SegmentOf(i) / 256 == 16 * q && SegmentOf(i) % 256 == 0;
  }

  // load_nextsector: 512 sectors from behind the directory to 0x8000, across four segments.
  method LoadSectors(disk: seq<byte>, mem: array<byte>)
    requires FIRST_SECTOR * SECTOR + LOAD_SIZE <= |disk| && LOAD_AT + LOAD_SIZE <= mem.Length
    modifies mem
    ensures mem[..] == Blit(old(mem[..]), LOAD_AT, disk[FIRST_SECTOR * SECTOR..FIRST_SECTOR * SECTOR + LOAD_SIZE])
  {
    hide Blit;
    ghost var m0, from := mem[..], FIRST_SECTOR * SECTOR;
    var eax, ebx, cx, es := SECTORS, FIRST_SECTOR, LOAD_AT, 0;
    BlitNone(m0, LOAD_AT);
    assert disk[from..from] == [];
    while eax != 0
      invariant 0 <= eax <= SECTORS && ebx == FIRST_SECTOR + (SECTORS - eax)
      invariant es == SegmentOf(SECTORS - eax) && cx == OffsetOf(SECTORS - eax)
      invariant mem[..] == Blit(m0, LOAD_AT, disk[from..from + SECTOR * (SECTORS - eax)])
      decreases eax
    {
      ghost var i := SECTORS - eax;
      SegmentStep(i);
      BlitSlice(m0, LOAD_AT, disk, from, from + SECTOR * i, from + SECTOR * (i + 1));
      ebx, es, cx := ReadSector(disk, mem, ebx, es, cx);
      eax := eax - 1;
    }
  }

  // copy_payload_to_free_mem: four segments from 0x8000 to 0x60000, byte by byte.
  method Relocate(mem: array<byte>)
    requires SAFE_AT + LOAD_SIZE <= mem.Length
    modifies mem
    ensures mem[..] == Blit(old(mem[..]), SAFE_AT, old(mem[LOAD_AT..LOAD_AT + LOAD_SIZE]))
  {
    ghost var m0 := mem[..];
    var ax, cx := 0x0800, 0x6000;
    assert Blit(m0, SAFE_AT, m0[LOAD_AT..LOAD_AT]) == m0;
    while true
      invariant 0x6000 <= cx < 0xA000 && cx % 0x1000 == 0 && ax == cx - 0x5800
      invariant mem[..] == Blit(m0, SAFE_AT, m0[LOAD_AT..Linear(ax, 0)])
      decreases 0xA000 - cx
    {
      CopySegment(mem, m0, ax, cx);
      ax := ax + 0x1000;
      cx := cx + 0x1000;
      if cx == 0xA000 { break; }
    }
    assert m0[LOAD_AT..LOAD_AT + LOAD_SIZE] == old(mem[LOAD_AT..LOAD_AT + LOAD_SIZE]);
  }

  // copy_single_segment: until the 16-bit offset wraps around to 0.
  method CopySegment(mem: array<byte>, ghost m0: seq<byte>, fs: nat, es: nat)
    requires SAFE_AT + LOAD_SIZE <= mem.Length == |m0|
    requires 0x6000 <= es < 0xA000 && es % 0x1000 == 0 && fs == es - 0x5800
    requires mem[..] == Blit(m0, SAFE_AT, m0[LOAD_AT..Linear(fs, 0)])
    modifies mem
    ensures mem[..] == Blit(m0, SAFE_AT, m0[LOAD_AT..Linear(fs, 0) + U16])
  {
    hide Blit;
    var bx := 0;
    while true
      invariant bx < U16 && mem[..] == Blit(m0, SAFE_AT, m0[LOAD_AT..Linear(fs, bx)])
      decreases U16 - bx
    {
      ghost var a := Linear(fs, bx);
      BlitAt(m0, SAFE_AT, m0[LOAD_AT..a], a);
      var dl := mem[Linear(fs, bx)];
      BlitNext(m0, SAFE_AT, m0[LOAD_AT..a], dl);
      SliceNext(m0, LOAD_AT, a);
      mem[Linear(es, bx)] := dl;
      bx := (bx + 1) % U16;
      if bx == 0 { break; }
    }
  }

  lemma SliceNext(m: seq<byte>, lo: nat, hi: nat)
    requires lo <= hi < |m|
    ensures m[lo..hi] + [m[hi]] == m[lo..hi + 1]
  {
  }

  // The boot sector as a whole: load, check the loader's first instruction words, relocate.
  method RunBootSector(disk: seq<byte>, mem: array<byte>) returns (found: bool)
    requires FIRST_SECTOR * SECTOR + LOAD_SIZE <= |disk| && SAFE_AT + LOAD_SIZE <= mem.Length
    modifies mem
    ensures
      var payload := disk[8192..8192 + 262144];
      var loaded := Blit(old(mem[..]), 0x8000, payload);
      && (found <==> FromLE(payload[..4]) == 0xC03166FA)
      && mem[..] == if found then Blit(loaded, 0x60000, payload) else loaded
  {
    LoadSectors(disk, mem);
    ghost var payload := disk[FIRST_SECTOR * SECTOR..FIRST_SECTOR * SECTOR + LOAD_SIZE];
    BlitInside(old(mem[..]), LOAD_AT, payload);
    SliceOfSlice(mem[..], LOAD_AT, LOAD_AT + LOAD_SIZE, 0, 4);
    assert mem[LOAD_AT..LOAD_AT + 4] == payload[0..4] == payload[..4];
    if FromLE(mem[LOAD_AT..LOAD_AT + 4]) != MAGIC {
      return false;
    }
    Relocate(mem);
    return true;
  }

  // ---------- the loader's last copy ----------

  // rep movsq of 32768 quad words from behind the loader to the 1 MiB mark.
  method CopyKernel(mem: array<byte>)
    requires KERNEL_AT + LOAD_SIZE <= mem.Length
    modifies mem
    ensures mem[..] == Blit(old(mem[..]), 0x100000, old(mem[0x60000 + 6144..0x60000 + 6144 + 262144]))
  {
    hide Blit;
    ghost var m0, from := mem[..], SAFE_AT + LOADER_SIZE;
    var rsi, rdi, rcx := SAFE_AT + LOADER_SIZE, KERNEL_AT, QUADWORDS;
    BlitNone(m0, KERNEL_AT);
    assert m0[from..from] == [];
    while rcx != 0
      invariant 0 <= rcx <= QUADWORDS && rsi == from + 8 * (QUADWORDS - rcx) && rdi == KERNEL_AT + 8 * (QUADWORDS - rcx)
      invariant mem[..] == Blit(m0, KERNEL_AT, m0[from..from + 8 * (QUADWORDS - rcx)])
      decreases rcx
    {
      CopyStep(m0, KERNEL_AT, from, 8 * (QUADWORDS - rcx), 8);
      assert mem[rsi..rsi + 8] == mem[..][rsi..rsi + 8];
      Store(mem, rdi, mem[rsi..rsi + 8]);
      rsi, rdi, rcx := rsi + 8, rdi + 8, rcx - 1;
    }
    assert m0[from..from + LOAD_SIZE] == old(mem[from..from + LOAD_SIZE]);
  }

  // ---------- memcpy and memset ----------

  // `memcpy`: word by word when everything is aligned, else byte by byte; both copy the bytes,
  // unless the destination starts inside the source.
  method Memcpy(mem: array<byte>, destination: nat, source: nat, length: nat)
    requires destination + length <= mem.Length && source + length <= mem.Length
    requires destination <= source || source + length <= destination
    modifies mem
    ensures mem[..] == Blit(old(mem[..]), destination, old(mem[source..source + length]))
  {
    if destination % 4 == 0 && source % 4 == 0 && length % 4 == 0 {
      CopyWords(mem, destination, source, length / 4);
    } else {
      CopyBytes(mem, destination, source, length);
    }
  }

  method CopyWords(mem: array<byte>, d: nat, s: nat, count: nat)
    requires d + 4 * count <= mem.Length && s + 4 * count <= mem.Length && (d <= s || s + 4 * count <= d)
    modifies mem
    ensures mem[..] == Blit(old(mem[..]), d, old(mem[s..s + 4 * count]))
  {
    hide Blit;
    ghost var m0 := mem[..];
    var i := 0;
    BlitNone(m0, d);
    assert m0[s..s] == [];
    while i < count
      invariant 0 <= i <= count && mem[..] == Blit(m0, d, m0[s..s + 4 * i])
    {
      CopyStep(m0, d, s, 4 * i, 4);
      assert mem[s + 4 * i..s + 4 * i + 4] == mem[..][s + 4 * i..s + 4 * i + 4];
      Store(mem, d + 4 * i, mem[s + 4 * i..s + 4 * i + 4]);
      i := i + 1;
    }
    assert m0[s..s + 4 * count] == old(mem[s..s + 4 * count]);
  }

  method CopyBytes(mem: array<byte>, d: nat, s: nat, count: nat)
    requires d + count <= mem.Length && s + count <= mem.Length && (d <= s || s + count <= d)
    modifies mem
    ensures mem[..] == Blit(old(mem[..]), d, old(mem[s..s + count]))
  {
    hide Blit;
    ghost var m0 := mem[..];
    var i := 0;
    BlitNone(m0, d);
    assert m0[s..s] == [];
    while i < count
      invariant 0 <= i <= count && mem[..] == Blit(m0, d, m0[s..s + i])
    {
      CopyStep(m0, d, s, i, 1);
      BlitNext(m0, d, m0[s..s + i], mem[s + i]);
      SliceNext(m0, s, s + i);
      BlitAt(m0, d, m0[s..s + i], s + i);
      mem[d + i] := mem[s + i];
      i := i + 1;
    }
    assert m0[s..s + count] == old(mem[s..s + count]);
  }

  lemma ZeroBelow(m: seq<byte>, at: nat, left: nat, length: nat)
    requires 0 < left <= length && at + length <= |m|
    ensures Blit(m, at + left, seq(length - left, _ => 0))[at + left - 1 := 0]
            == Blit(m, at + left - 1, seq(length - (left - 1), _ => 0))
  {
  }

  // `memset` with 0, as clearBSS uses it: from the end downwards.
  method ClearBytes(mem: array<byte>, at: nat, length: nat)
    requires at + length <= mem.Length
    modifies mem
    ensures mem[..] == Blit(old(mem[..]), at, seq(length, _ => 0))
  {
    hide Blit;
    ghost var m0 := mem[..];
    var left := length;
    BlitNone(m0, at + left);
    assert seq(0, _ => 0) == [];
    while left != 0
      invariant 0 <= left <= length && mem[..] == Blit(m0, at + left, seq(length - left, _ => 0))
      decreases left
    {
      ZeroBelow(m0, at, left, length);
      left := left - 1;
      mem[at + left] := 0;
    }
  }
}

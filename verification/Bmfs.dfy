/** BMFS, the file system of the boot disk: its directory, its extents, and the commands of the
    disk utility as functions on the disk. */
module Bmfs {
  import opened Bytes

  const SLOTS: nat := 64
  const NAME_SIZE: nat := 32
  const RECORD_SIZE: nat := 64
  const MIB: nat := 1048576
  const BLOCK: nat := 2097152
  const DIRECTORY_AT: nat := 4096
  const DIRECTORY_SIZE: nat := 4096
  const TAG_AT: nat := 1024
  const TAG_SIZE: nat := 512

  type Name = seq<byte>

  /** `struct BMFSEntry`, the file name as its raw 32 bytes. */
  datatype Entry = Entry(name: seq<byte>, start: nat, reserved: nat, size: nat, unused: seq<byte>) {
    ghost predicate WellFormed() {
      |name| == NAME_SIZE && |unused| == 8 && start < U64 && reserved < U64 && size < U64
    }

    // First block behind the extent.
    function End(): nat { start + reserved }
  }

  predicate EndMark(e: Entry) { |e.name| > 0 && e.name[0] == 0 }
  predicate Deleted(e: Entry) { |e.name| > 0 && e.name[0] == 1 }
  predicate Live(e: Entry) { |e.name| > 0 && e.name[0] != 0 && e.name[0] != 1 }

  // The C string at the front of `bs`.
  function CString(bs: seq<byte>): (r: seq<byte>)
    ensures |r| <= |bs| && r == bs[..|r|] && 0 !in r
    ensures |r| < |bs| ==> bs[|r|] == 0
  {
    if bs == [] || bs[0] == 0 then [] else [bs[0]] + CString(bs[1..])
  }

  // strcpy: the bytes behind the terminator stay.
  function Strcpy(dst: seq<byte>, src: seq<byte>): (r: seq<byte>)
    requires |src| < |dst|
    ensures |r| == |dst|
  {
    src + [0] + dst[|src| + 1..]
  }

  lemma {:induction false} CStringOf(src: seq<byte>, rest: seq<byte>)
    requires 0 !in src
    ensures CString(src + [0] + rest) == src
  {
    var bs := src + [0] + rest;
    if src != [] {
      assert bs[1..] == src[1..] + [0] + rest;
      CStringOf(src[1..], rest);
    }
  }

  /** The directory held in memory and the bytes of the disk. */
  datatype State = State(dir: seq<Entry>, disk: seq<byte>)

  // ---------- directory ----------

  // Index of the first 0x00 record, or the number of slots when there is none.
  function Terminator(dir: seq<Entry>): (n: nat)
    ensures n <= |dir|
    ensures n < |dir| ==> EndMark(dir[n])
    ensures forall i :: 0 <= i < n ==> !EndMark(dir[i])
  {
    if dir == [] || EndMark(dir[0]) then 0
    else
      var n := Terminator(dir[1..]);
      assert forall i :: 0 < i < |dir| ==> dir[i] == dir[1..][i - 1];
      n + 1
  }

  // A record that `list` shows: live and before the terminator.
  predicate Listed(dir: seq<Entry>, i: int) {
    0 <= i < |dir| && i < Terminator(dir) && Live(dir[i])
  }

  // `findfile`: the slot of the listed record with this name, or the number of slots.
  function FindFile(dir: seq<Entry>, name: Name): (slot: nat)
    ensures slot <= |dir|
    ensures slot < |dir| ==> Listed(dir, slot) && CString(dir[slot].name) == name
    ensures slot == |dir| ==> forall i :: Listed(dir, i) ==> CString(dir[i].name) != name
  {
    FindFrom(dir, name, 0)
  }

  function FindFrom(dir: seq<Entry>, name: Name, from: nat): (slot: nat)
    requires from <= |dir|
    ensures slot <= |dir|
    ensures slot < |dir| ==> from <= slot && Listed(dir, slot) && CString(dir[slot].name) == name
    ensures forall i :: from <= i < slot && Listed(dir, i) ==> CString(dir[i].name) != name
    decreases |dir| - from
  {
    if from >= Terminator(dir) then |dir|
    else if Live(dir[from]) && CString(dir[from].name) == name then from
    else FindFrom(dir, name, from + 1)
  }

  // Index of the first record `create` may reuse: deleted or terminator; none gives |dir|.
  function FreeSlot(dir: seq<Entry>): (slot: nat)
    ensures slot <= |dir| && slot <= Terminator(dir)
    ensures slot < |dir| ==> Deleted(dir[slot]) || slot == Terminator(dir)
    ensures forall i :: 0 <= i < slot ==> !Deleted(dir[i])
  {
    FreeSlotFrom(dir, 0)
  }

  function FreeSlotFrom(dir: seq<Entry>, from: nat): (slot: nat)
    requires from <= Terminator(dir)
    requires forall i :: 0 <= i < from ==> !Deleted(dir[i])
    ensures slot <= Terminator(dir)
    ensures slot < |dir| ==> Deleted(dir[slot]) || slot == Terminator(dir)
    ensures forall i :: 0 <= i < slot ==> !Deleted(dir[i])
    decreases |dir| - from
  {
    if from == Terminator(dir) || Deleted(dir[from]) then from else FreeSlotFrom(dir, from + 1)
  }

  // ---------- extents ----------

  // `disksize / 2`, the disk size being counted in MiB by an unsigned int.
  function NumBlocks(disk: seq<byte>): nat {
    (|disk| / MIB) % U32 / 2
  }

  // Runs [s, s + n) and the extent of `e` have no block in common.
  predicate Apart(s: nat, n: nat, e: Entry) {
    s + n <= e.start || e.End() <= s
  }

  // A run of `n` blocks of the data area that meets no listed file.
  ghost predicate FreeRun(dir: seq<Entry>, blocks: nat, s: nat, n: nat) {
    && 1 <= s && s + n + 1 <= blocks
    && forall i :: Listed(dir, i) ==> Apart(s, n, dir[i])
  }

  // The lowest free run from `s` on, or 0.
  ghost function LowestRun(dir: seq<Entry>, blocks: nat, s: nat, n: nat): (r: nat)
    ensures r != 0 ==> s <= r && FreeRun(dir, blocks, r, n)
    ensures forall t :: s <= t && (r == 0 || t < r) ==> !FreeRun(dir, blocks, t, n)
    decreases blocks - s
  {
    if s + n + 1 > blocks then 0
    else if FreeRun(dir, blocks, s, n) then s
    else LowestRun(dir, blocks, s + 1, n)
  }

  ghost predicate ExtentOk(e: Entry, blocks: nat) {
    1 <= e.start && 1 <= e.reserved && e.End() + 1 <= blocks
  }

  ghost predicate FileOk(e: Entry) {
    && 0 in e.name
    && e.size <= e.reserved * BLOCK && e.size < I32
  }

  // Different files: different names, no common block.
  ghost predicate Separate(e: Entry, f: Entry) {
    Apart(e.start, e.reserved, f) && CString(e.name) != CString(f.name)
  }

  ghost predicate DirOk(dir: seq<Entry>, blocks: nat) {
    && |dir| == SLOTS
    && (forall i :: 0 <= i < |dir| ==> dir[i].WellFormed())
    && (forall i :: 0 <= i < Terminator(dir) ==> ExtentOk(dir[i], blocks))
    && (forall i :: Listed(dir, i) ==> FileOk(dir[i]))
    && (forall i, j :: Listed(dir, i) && Listed(dir, j) && i != j ==> Separate(dir[i], dir[j]))
  }
}

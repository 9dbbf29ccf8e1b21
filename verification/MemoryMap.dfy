/** The amount of usable memory, added up from the BIOS memory map. */
module MemoryMap {
  import opened Bytes

  const MAP_AT: nat := 0x4000
  // The loader asks for 24-byte records and stores them 32 bytes apart.
  const RECORD: nat := 32
  const MIB: nat := 0x10_0000

  function Kind(mem: seq<byte>, n: nat): nat
    requires MAP_AT + RECORD * (n + 1) <= |mem|
  {
    FromLE(mem[MAP_AT + RECORD * n + 16..MAP_AT + RECORD * n + 20])
  }

  function Size(mem: seq<byte>, n: nat): nat
    requires MAP_AT + RECORD * (n + 1) <= |mem|
  {
    FromLE(mem[MAP_AT + RECORD * n + 8..MAP_AT + RECORD * n + 16])
  }

  // Free memory and memory that the system may reclaim.
  predicate Usable(kind: nat) {
    kind == 1 || kind == 3 || kind == 6
  }

  // The map has `n` records in front of the one of kind 0 that ends it.
  ghost predicate Ends(mem: seq<byte>, n: nat) {
    && MAP_AT + RECORD * (n + 1) <= |mem| && Kind(mem, n) == 0
    && forall i :: 0 <= i < n ==> Kind(mem, i) != 0
  }

  function UsableBytes(mem: seq<byte>, n: nat): nat
    requires MAP_AT + RECORD * n <= |mem|
  {
    if n == 0 then 0
    else UsableBytes(mem, n - 1) + if Usable(Kind(mem, n - 1)) then Size(mem, n - 1) else 0
  }

  method Qword(mem: seq<byte>, rsi: nat) returns (rax: nat, rsi': nat)
    requires rsi + 8 <= |mem|
    ensures rax == FromLE(mem[rsi..rsi + 8]) && rsi' == rsi + 8
  {
    return FromLE(mem[rsi..rsi + 8]), rsi + 8;
  }

  // The loop at `readnextrecord` and the conversion to an even number of MiB: the megabytes of all
  // usable records, rounded down and then up to an even number.
  method MemAmount(mem: seq<byte>, ghost n: nat) returns (amount: nat)
    requires Ends(mem, n)
    ensures amount % 2 == 0
    ensures var mib := UsableBytes(mem, n) / 1048576; mib + 1 < U32 ==> mib <= amount <= mib + 1
  {
    hide Usable, UsableBytes, Kind, Size, FromLE;
    var rcx, rsi := 0, MAP_AT;
    ghost var k: nat := 0;
    NoBytes(mem);
    while true
      invariant k <= n && rsi == MAP_AT + RECORD * k
      invariant rcx == UsableBytes(mem, k) % U64
      decreases n - k
    {
      var rax;
      NextRecord(mem, k);
      rax, rsi := Qword(mem, rsi);
      rax, rsi := Qword(mem, rsi);
      var eax := FromLE(mem[rsi..rsi + 4]);
      rsi := rsi + 4;
      if eax == 0 { break; }
      if eax == 1 || eax == 3 || eax == 6 {
        rsi := rsi - 12;
        rax, rsi := Qword(mem, rsi);
        rcx := (rcx + rax) % U64;
        rax, rsi := Qword(mem, rsi);
        rax, rsi := Qword(mem, rsi);
      } else {
        rsi := rsi + 4;
        rax, rsi := Qword(mem, rsi);
      }
      k := k + 1;
    }
    if UsableBytes(mem, n) / MIB + 1 < U32 { FullCount(UsableBytes(mem, n)); }
    rcx := rcx / MIB;
    var ecx := (rcx + 1) % U32;
    amount := ecx - ecx % 2;
  }

  lemma FullCount(total: nat)
    requires total / MIB + 1 < U32
    ensures total % U64 == total
  {
  }

  lemma NoBytes(mem: seq<byte>)
    requires MAP_AT <= |mem|
    ensures UsableBytes(mem, 0) == 0
  {
  }

  lemma NextRecord(mem: seq<byte>, k: nat)
    requires MAP_AT + RECORD * (k + 1) <= |mem|
    ensures Kind(mem, k) == FromLE(mem[0x4000 + 32 * k + 16..0x4000 + 32 * k + 20])
    ensures Size(mem, k) == FromLE(mem[0x4000 + 32 * k + 8..0x4000 + 32 * k + 16])
    ensures UsableBytes(mem, k + 1) == UsableBytes(mem, k) + if Kind(mem, k) in {1, 3, 6} then Size(mem, k) else 0
    ensures (UsableBytes(mem, k) % U64 + Size(mem, k)) % U64 == (UsableBytes(mem, k) + Size(mem, k)) % U64
  {
  }
}

/** The walk over the ACPI table that lists the processors (section 5.2.12 of the ACPI specification). */
module Madt {
  import opened Bytes

  const HEADER: nat := 44
  const U16: nat := 0x1_0000

  const LOCAL_APIC: int := 0
  const IO_APIC: int := 1
  const OVERRIDE: int := 2
  const X2APIC: int := 9

  // ---------- records ----------

  // Bytes that the code reads for a record of this type and length field.
  function BytesRead(kind: byte, length: byte): int {
    if kind == LOCAL_APIC then 8
    else if kind == IO_APIC then 12
    else if kind == OVERRIDE then 10
    else if kind == X2APIC then 16
    else length
  }

  // The length field is the one that section 5.2.12 gives for a local APIC, I/O APIC, interrupt source
  // override or local x2APIC; a type the code ignores may have any but 0.
  predicate LengthOk(kind: byte, length: byte) {
    && 1 <= length
    && (kind == 0 ==> length == 8) && (kind == 1 ==> length == 12) && (kind == 2 ==> length == 10) && (kind == 9 ==> length == 16)
  }

  // On such a record the code reads as many bytes as its length field says, and on no other of a
  // type that it knows.
  lemma ReadsLengthIff(kind: byte, length: byte)
    requires 1 <= length
    ensures LengthOk(kind, length) <==> BytesRead(kind, length) == length
  {
  }

  // From `pos` on, the table is a list of records that ends at `end`.
  predicate WellFormed(bs: seq<byte>, pos: nat, end: nat)
    decreases end - pos
  {
    if pos >= end then pos == end
    else
      && pos + 2 <= |bs| && LengthOk(bs[pos], bs[pos + 1])
      && pos + bs[pos + 1] <= |bs| && WellFormed(bs, pos + bs[pos + 1], end)
  }

  function Records(bs: seq<byte>, pos: nat, end: nat): (rs: seq<seq<byte>>)
    requires WellFormed(bs, pos, end)
    decreases end - pos
  {
    if pos >= end then []
    else [bs[pos..pos + bs[pos + 1]]] + Records(bs, pos + bs[pos + 1], end)
  }

  // A processor that is enabled.
  predicate EnabledCpu(r: seq<byte>) {
    |r| == 8 && r[0] == LOCAL_APIC && r[4] % 2 == 1
  }

  // APIC IDs of the enabled processors, in table order.
  function EnabledIds(rs: seq<seq<byte>>): seq<byte> {
    if rs == [] then []
    else (if EnabledCpu(rs[0]) then [rs[0][3]] else []) + EnabledIds(rs[1..])
  }

  // Address and vector base of every I/O APIC, in table order.
  function IoApics(rs: seq<seq<byte>>): seq<(nat, nat)> {
    if rs == [] then []
    else (if |rs[0]| == 12 && rs[0][0] == IO_APIC then [(FromLE(rs[0][4..8]), FromLE(rs[0][8..12]))] else []) + IoApics(rs[1..])
  }

  // ---------- one record ----------

  method Dword(bs: seq<byte>, rsi: nat) returns (eax: nat, rsi': nat)
    requires rsi + 4 <= |bs|
    ensures eax == FromLE(bs[rsi..rsi + 4]) && rsi' == rsi + 4
  {
    return FromLE(bs[rsi..rsi + 4]), rsi + 4;
  }

  // The bytes that one round reads exist.
  predicate InMemory(bs: seq<byte>, rsi: nat) {
    rsi + 2 <= |bs| && rsi + BytesRead(bs[rsi], bs[rsi + 1]) <= |bs|
  }

  // One round of readAPICstructures, whatever the length field says: the cursor goes on by what the
  // type makes the code read, the counter by the length field.
  method ReadStructure(bs: seq<byte>, rsi: nat, ebx: nat) returns (rsi': nat, ebx': nat, id: seq<byte>, io: seq<(nat, nat)>)
    requires InMemory(bs, rsi)
    ensures rsi' == rsi + BytesRead(bs[rsi], bs[rsi + 1]) && ebx' == (ebx + bs[rsi + 1]) % U32
    ensures LengthOk(bs[rsi], bs[rsi + 1]) ==> rsi' == rsi + bs[rsi + 1]
    ensures id == EnabledIds([bs[rsi..rsi']]) && io == IoApics([bs[rsi..rsi']])
  {
    assert LengthOk(bs[rsi], bs[rsi + 1]) ==> BytesRead(bs[rsi], bs[rsi + 1]) == bs[rsi + 1];
    Found(bs, rsi);
    hide LengthOk, EnabledIds, IoApics, FromLE;
    id, io := [], [];
    var al := bs[rsi];
    var eax := bs[rsi + 1] as int;
    rsi' := rsi + 2;
    ebx' := (ebx + eax) % U32;
    if al == LOCAL_APIC {
      var processorId, apicId := bs[rsi'], bs[rsi' + 1];
      rsi' := rsi' + 2;
      var flags;
      flags, rsi' := Dword(bs, rsi');
      if flags % 2 == 1 {
        id := [apicId];
      }
    } else if al == IO_APIC {
      rsi' := rsi' + 2;
      var address, base;
      address, rsi' := Dword(bs, rsi');
      base, rsi' := Dword(bs, rsi');
      io := [(address, base)];
    } else if al == OVERRIDE {
      rsi' := rsi' + 2;
      eax, rsi' := Dword(bs, rsi');
      rsi' := rsi' + 2;
    } else if al == X2APIC {
      rsi' := rsi' + 2;
      var x2apicId, flags;
      x2apicId, rsi' := Dword(bs, rsi');
      flags, rsi' := Dword(bs, rsi');
      eax, rsi' := Dword(bs, rsi');
    } else {
      rsi' := rsi' + eax;
      rsi' := rsi' - 2;
    }
  }

  // What the bytes of one round hold, field by field.
  lemma Found(bs: seq<byte>, rsi: nat)
    requires InMemory(bs, rsi)
    ensures
      var r := bs[rsi..rsi + BytesRead(bs[rsi], bs[rsi + 1])];
      if bs[rsi] == LOCAL_APIC then
        EnabledIds([r]) == (if FromLE(bs[rsi + 4..rsi + 8]) % 2 == 1 then [bs[rsi + 3]] else []) && IoApics([r]) == []
      else if bs[rsi] == IO_APIC then
        EnabledIds([r]) == [] && IoApics([r]) == [(FromLE(bs[rsi + 4..rsi + 8]), FromLE(bs[rsi + 8..rsi + 12]))]
      else EnabledIds([r]) == [] && IoApics([r]) == []
  {
    var r := bs[rsi..rsi + BytesRead(bs[rsi], bs[rsi + 1])];
    One(r);
    hide EnabledIds, IoApics;
    if bs[rsi] == LOCAL_APIC {
      FlagBit(bs[rsi + 4..rsi + 8]);
    } else if bs[rsi] == IO_APIC {
      SliceOfSlice(bs, rsi, rsi + 12, 4, 8);
      SliceOfSlice(bs, rsi, rsi + 12, 8, 12);
    } else if r == [] {
      NoRecord();
    }
  }

  lemma NoRecord()
    ensures EnabledIds([[]]) == [] && IoApics([[]]) == []
  {
  }

  lemma One(r: seq<byte>)
    ensures EnabledIds([r]) == if EnabledCpu(r) then [r[3]] else []
    ensures IoApics([r]) == if |r| == 12 && r[0] == IO_APIC then [(FromLE(r[4..8]), FromLE(r[8..12]))] else []
  {
  }

  lemma Join(r: seq<byte>, rest: seq<seq<byte>>)
    ensures EnabledIds([r] + rest) == EnabledIds([r]) + EnabledIds(rest)
    ensures IoApics([r] + rest) == IoApics([r]) + IoApics(rest)
  {
    assert ([r] + rest)[1..] == rest;
    One(r);
  }

  lemma FlagBit(bs: seq<byte>)
    requires |bs| == 4
    ensures FromLE(bs) % 2 == bs[0] % 2
  {
  }

  // ---------- the walk ----------

  /** Read cursor and byte counter at a record boundary; the counter is a 32-bit register. */
  datatype Walk = Walk(rsi: nat, ebx: nat)

  // The comparison is signed.
  predicate Going(w: Walk, ecx: nat) {
    ToInt32(w.ebx) < ToInt32(ecx)
  }

  function Round(bs: seq<byte>, w: Walk): Walk
    requires InMemory(bs, w.rsi)
  {
    Walk(w.rsi + BytesRead(bs[w.rsi], bs[w.rsi + 1]), (w.ebx + bs[w.rsi + 1]) % U32)
  }

  // The walk ends after `n` rounds, all of them inside the bytes.
  predicate Stops(bs: seq<byte>, w: Walk, ecx: nat, n: nat)
    decreases n
  {
    if n == 0 then !Going(w, ecx)
    else Going(w, ecx) && InMemory(bs, w.rsi) && Stops(bs, Round(bs, w), ecx, n - 1)
  }

  // What its rounds read.
  function Visited(bs: seq<byte>, w: Walk, ecx: nat, n: nat): seq<seq<byte>>
    requires Stops(bs, w, ecx, n)
    decreases n
  {
    if n == 0 then [] else [bs[w.rsi..Round(bs, w).rsi]] + Visited(bs, Round(bs, w), ecx, n - 1)
  }

  // At every boundary the counter is the number of bytes read since `table`, and the last boundary
  // is the end of the table.
  predicate InStep(bs: seq<byte>, table: nat, w: Walk, ecx: nat, n: nat)
    requires Stops(bs, w, ecx, n)
    decreases n
  {
    w.rsi == table + w.ebx && if n == 0 then w.ebx == ecx else InStep(bs, table, Round(bs, w), ecx, n - 1)
  }

  ghost predicate WalksInStep(bs: seq<byte>, table: nat, ecx: nat) {
    exists n :: StopsInStep(bs, table, ecx, n)
  }

  predicate StopsInStep(bs: seq<byte>, table: nat, ecx: nat, n: nat) {
    var w := Walk(table + HEADER, HEADER);
    Stops(bs, w, ecx, n) && InStep(bs, table, w, ecx, n)
  }

  // The walk ends, exactly at the end of the table and with both cursors together all the way, just
  // when the table is a list of records whose length fields are those of their types.
  lemma WalkIff(bs: seq<byte>, table: nat, ecx: nat)
    requires HEADER <= ecx < I32
    ensures WalksInStep(bs, table, ecx) <==> WellFormed(bs, table + HEADER, table + ecx)
  {
    var w := Walk(table + HEADER, HEADER);
    if WalksInStep(bs, table, ecx) {
      var n :| StopsInStep(bs, table, ecx, n);
      InStepIsWellFormed(bs, table, w, ecx, n);
    }
    if WellFormed(bs, table + HEADER, table + ecx) {
      var n := WellFormedWalks(bs, table, w, ecx);
      assert StopsInStep(bs, table, ecx, n);
    }
  }

  lemma {:induction false} StopsOnce(bs: seq<byte>, w: Walk, ecx: nat, n: nat, m: nat)
    requires Stops(bs, w, ecx, n) && Stops(bs, w, ecx, m)
    ensures n == m
    decreases n
  {
    if n > 0 && m > 0 {
      StopsOnce(bs, Round(bs, w), ecx, n - 1, m - 1);
    }
  }

  lemma {:induction false} InStepIsBelow(bs: seq<byte>, table: nat, w: Walk, ecx: nat, n: nat)
    requires Stops(bs, w, ecx, n) && InStep(bs, table, w, ecx, n)
    ensures w.ebx <= ecx
    decreases n
  {
    if n > 0 {
      InStepIsBelow(bs, table, Round(bs, w), ecx, n - 1);
    }
  }

  lemma {:induction false} InStepIsWellFormed(bs: seq<byte>, table: nat, w: Walk, ecx: nat, n: nat)
    requires ecx < I32 && Stops(bs, w, ecx, n) && InStep(bs, table, w, ecx, n)
    ensures WellFormed(bs, w.rsi, table + ecx)
    decreases n
  {
    if n > 0 {
      var next := Round(bs, w);
      InStepIsBelow(bs, table, w, ecx, n);
      InStepIsBelow(bs, table, next, ecx, n - 1);
      InStepIsWellFormed(bs, table, next, ecx, n - 1);
      Advances(bs, w, ecx, n);
      LengthsAgree(bs, table, w, ecx);
    }
  }

  // A round that changes nothing is repeated for ever.
  lemma {:induction false} Stuck(bs: seq<byte>, w: Walk, ecx: nat, n: nat)
    requires Going(w, ecx) && InMemory(bs, w.rsi) && Round(bs, w) == w
    ensures !Stops(bs, w, ecx, n)
  {
    if n > 0 {
      Stuck(bs, w, ecx, n - 1);
    }
  }

  lemma Advances(bs: seq<byte>, w: Walk, ecx: nat, n: nat)
    requires Stops(bs, w, ecx, n) && n > 0
    ensures Round(bs, w) != w
  {
    if Round(bs, w) == w {
      Stuck(bs, w, ecx, n);
    }
  }

  lemma LengthsAgree(bs: seq<byte>, table: nat, w: Walk, ecx: nat)
    requires ecx < I32 && InMemory(bs, w.rsi) && w.ebx <= ecx
    requires w.rsi == table + w.ebx && Round(bs, w).rsi == table + Round(bs, w).ebx && Round(bs, w) != w
    ensures LengthOk(bs[w.rsi], bs[w.rsi + 1])
  {
  }

  lemma RecordRound(bs: seq<byte>, table: nat, w: Walk, ecx: nat)
    requires ecx < I32 && w.rsi == table + w.ebx && w.ebx < ecx && WellFormed(bs, w.rsi, table + ecx)
    ensures Going(w, ecx) && InMemory(bs, w.rsi)
    ensures
      var next := Round(bs, w);
      && next.rsi == table + next.ebx && w.rsi < next.rsi && next.ebx <= ecx && WellFormed(bs, next.rsi, table + ecx)
      && Records(bs, w.rsi, table + ecx) == [bs[w.rsi..next.rsi]] + Records(bs, next.rsi, table + ecx)
  {
    RecordHere(bs, w.rsi, table + ecx);
    InsideTable(bs, w.rsi + bs[w.rsi + 1], table + ecx);
    hide WellFormed, Records, LengthOk, BytesRead;
  }

  lemma RecordHere(bs: seq<byte>, pos: nat, end: nat)
    requires WellFormed(bs, pos, end) && pos < end
    ensures pos + 2 <= |bs| && 0 < bs[pos + 1] == BytesRead(bs[pos], bs[pos + 1]) && pos + bs[pos + 1] <= |bs|
    ensures WellFormed(bs, pos + bs[pos + 1], end)
    ensures Records(bs, pos, end) == [bs[pos..pos + bs[pos + 1]]] + Records(bs, pos + bs[pos + 1], end)
  {
  }

  lemma {:induction false} WellFormedWalks(bs: seq<byte>, table: nat, w: Walk, ecx: nat) returns (n: nat)
    requires ecx < I32 && w.rsi == table + w.ebx && WellFormed(bs, w.rsi, table + ecx)
    ensures Stops(bs, w, ecx, n) && InStep(bs, table, w, ecx, n)
    ensures Visited(bs, w, ecx, n) == Records(bs, w.rsi, table + ecx)
    decreases table + ecx - w.rsi
  {
    InsideTable(bs, w.rsi, table + ecx);
    if w.ebx == ecx {
      return 0;
    }
    RecordRound(bs, table, w, ecx);
    hide WellFormed, Records, Going, InMemory, Round;
    var m := WellFormedWalks(bs, table, Round(bs, w), ecx);
    n := m + 1;
  }

  lemma InsideTable(bs: seq<byte>, pos: nat, end: nat)
    requires WellFormed(bs, pos, end)
    ensures pos <= end
  {
  }

  // A length of 2^31 or more is negative, and the walk ends before the first record; so it does for a
  // length of at most 44.
  lemma NothingReadIff(bs: seq<byte>, table: nat, ecx: nat)
    requires ecx < U32
    ensures Stops(bs, Walk(table + HEADER, HEADER), ecx, 0) <==> ecx <= 44 || 0x8000_0000 <= ecx
  {
  }

  // A table as ordinary machines have it: a processor, one that is disabled, the I/O APIC, an interrupt
  // source override, an x2APIC, and a second processor.
  const ORDINARY: seq<byte> := CPU_1 + DISABLED_3 + IO_APIC_0 + OVERRIDE_0 + X2APIC_300 + CPU_2
  const CPU_1: seq<byte> := [0, 8, 1, 1, 1, 0, 0, 0]
  const DISABLED_3: seq<byte> := [0, 8, 3, 3, 0, 0, 0, 0]
  const IO_APIC_0: seq<byte> := [1, 12, 9, 0, 0, 0, 0xC0, 0xFE, 24, 0, 0, 0]
  const OVERRIDE_0: seq<byte> := [2, 10, 0, 0, 2, 0, 0, 0, 0, 0]
  const X2APIC_300: seq<byte> := [9, 16, 0, 0, 44, 1, 0, 0, 1, 0, 0, 0, 7, 0, 0, 0]
  const CPU_2: seq<byte> := [0, 8, 2, 2, 1, 0, 0, 0]

  // Behind any header that gives the length 106, the table is well-formed, so the walk over it is in
  // step, and it finds both processors and the I/O APIC.
  lemma OrdinaryTable(bs: seq<byte>)
    requires |bs| == 106 && bs[HEADER..] == ORDINARY
    ensures WellFormed(bs, HEADER, 106) && WalksInStep(bs, 0, 106)
    ensures EnabledIds(Records(bs, HEADER, 106)) == [1, 2]
    ensures IoApics(Records(bs, HEADER, 106)) == [(0xFEC00000, 24)]
  {
    OrdinaryParts(bs);
    OrdinaryShapes();
    hide LengthOk, IsRecord, WellFormed, Records, EnabledIds, IoApics, WalksInStep;
    SixRecords(bs, CPU_1, DISABLED_3, IO_APIC_0, OVERRIDE_0, X2APIC_300, CPU_2);
    OrdinaryFound();
    WalkIff(bs, 0, 106);
  }

  lemma SixRecords(bs: seq<byte>, a: seq<byte>, b: seq<byte>, c: seq<byte>, d: seq<byte>, e: seq<byte>, f: seq<byte>)
    requires |bs| == 106 && IsRecord(a) && IsRecord(b) && IsRecord(c) && IsRecord(d) && IsRecord(e) && IsRecord(f)
    requires |a| == |b| == |f| == 8 && |c| == 12 && |d| == 10 && |e| == 16
    requires bs[44..52] == a && bs[52..60] == b && bs[60..72] == c && bs[72..82] == d && bs[82..98] == e && bs[98..106] == f
    ensures WellFormed(bs, HEADER, 106)
    ensures Records(bs, HEADER, 106) == [a] + ([b] + ([c] + ([d] + ([e] + ([f] + [])))))
  {
    assert WellFormed(bs, 106, 106) && Records(bs, 106, 106) == [];
    hide LengthOk, IsRecord, WellFormed, Records;
    OneRecord(bs, 98, 106, f);
    OneRecord(bs, 82, 106, e);
    OneRecord(bs, 72, 106, d);
    OneRecord(bs, 60, 106, c);
    OneRecord(bs, 52, 106, b);
    OneRecord(bs, 44, 106, a);
  }

  lemma OrdinaryParts(bs: seq<byte>)
    requires |bs| == 106 && bs[HEADER..] == ORDINARY
    ensures bs[44..52] == CPU_1 && bs[52..60] == DISABLED_3 && bs[60..72] == IO_APIC_0
    ensures bs[72..82] == OVERRIDE_0 && bs[82..98] == X2APIC_300 && bs[98..106] == CPU_2
  {
    assert bs[44..106] == bs[HEADER..];
    Part(bs, 0, 8);
    Part(bs, 8, 16);
    Part(bs, 16, 28);
    Part(bs, 28, 38);
    Part(bs, 38, 54);
    Part(bs, 54, 62);
  }

  lemma Part(bs: seq<byte>, i: nat, j: nat)
    requires |bs| == 106 && bs[HEADER..] == ORDINARY && i <= j <= 62
    ensures |ORDINARY| == 62 && bs[44 + i..44 + j] == ORDINARY[i..j]
  {
    assert |bs[HEADER..]| == 62;
    assert bs[44..106] == bs[HEADER..];
    SliceOfSlice(bs, 44, 106, i, j);
  }

  // A record of one of the types that the code knows, with the length that the specification gives.
  predicate IsRecord(r: seq<byte>) {
    && 2 <= |r| == r[1] && r[0] in {0, 1, 2, 9}
    && |r| == if r[0] == 0 then 8 else if r[0] == 1 then 12 else if r[0] == 2 then 10 else 16
  }

  lemma OrdinaryShapes()
    ensures IsRecord(CPU_1) && IsRecord(DISABLED_3) && IsRecord(IO_APIC_0)
    ensures IsRecord(OVERRIDE_0) && IsRecord(X2APIC_300) && IsRecord(CPU_2)
    ensures |CPU_1| == |DISABLED_3| == |CPU_2| == 8 && |IO_APIC_0| == 12 && |OVERRIDE_0| == 10 && |X2APIC_300| == 16
  {
  }

  lemma OneRecord(bs: seq<byte>, pos: nat, end: nat, r: seq<byte>)
    requires IsRecord(r) && pos + |r| <= end <= |bs| && bs[pos..pos + |r|] == r
    requires WellFormed(bs, pos + |r|, end)
    ensures WellFormed(bs, pos, end) && Records(bs, pos, end) == [r] + Records(bs, pos + |r|, end)
  {
    assert bs[pos] == r[0] && bs[pos + 1] == r[1];
  }

  lemma OrdinaryFound()
    ensures
      var rs := [CPU_1] + ([DISABLED_3] + ([IO_APIC_0] + ([OVERRIDE_0] + ([X2APIC_300] + ([CPU_2] + [])))));
      EnabledIds(rs) == [1, 2] && IoApics(rs) == [(0xFEC00000, 24)]
  {
    OrdinaryOnes();
    hide *;
    var tail := [CPU_2] + [];
    assert tail == [CPU_2];
    Join(X2APIC_300, tail);
    Join(OVERRIDE_0, [X2APIC_300] + tail);
    Join(IO_APIC_0, [OVERRIDE_0] + ([X2APIC_300] + tail));
    Join(DISABLED_3, [IO_APIC_0] + ([OVERRIDE_0] + ([X2APIC_300] + tail)));
    Join(CPU_1, [DISABLED_3] + ([IO_APIC_0] + ([OVERRIDE_0] + ([X2APIC_300] + tail))));
  }

  lemma OrdinaryOnes()
    ensures EnabledIds([CPU_1]) == [1] && EnabledIds([DISABLED_3]) == [] && EnabledIds([IO_APIC_0]) == []
    ensures EnabledIds([OVERRIDE_0]) == [] && EnabledIds([X2APIC_300]) == [] && EnabledIds([CPU_2]) == [2]
    ensures IoApics([CPU_1]) == IoApics([DISABLED_3]) == IoApics([OVERRIDE_0]) == IoApics([X2APIC_300]) == IoApics([CPU_2]) == []
    ensures IoApics([IO_APIC_0]) == [(0xFEC00000, 24)]
  {
    hide EnabledIds, IoApics;
    OneCpu(CPU_1);
    OneCpu(DISABLED_3);
    OneCpu(CPU_2);
    OneOther(OVERRIDE_0);
    OneOther(X2APIC_300);
    OneIoApic();
  }

  lemma OneCpu(r: seq<byte>)
    requires |r| == 8 && r[0] == 0
    ensures EnabledIds([r]) == (if r[4] % 2 == 1 then [r[3]] else []) && IoApics([r]) == []
  {
    One(r);
  }

  lemma OneOther(r: seq<byte>)
    requires |r| > 0 && r[0] != 0 && r[0] != 1
    ensures EnabledIds([r]) == [] && IoApics([r]) == []
  {
    One(r);
  }

  lemma OneIoApic()
    ensures EnabledIds([IO_APIC_0]) == [] && IoApics([IO_APIC_0]) == [(0xFEC00000, 24)]
  {
    One(IO_APIC_0);
    hide EnabledIds, IoApics;
    assert IO_APIC_0[4..8] == [0, 0, 0xC0, 0xFE] && IO_APIC_0[8..12] == [24, 0, 0, 0];
    FourBytes(0, 0, 0xC0, 0xFE);
    FourBytes(24, 0, 0, 0);
  }

  lemma FourBytes(a: byte, b: byte, c: byte, d: byte)
    ensures FromLE([a, b, c, d]) == a + 256 * (b + 256 * (c + 256 * d))
  {
    var last: seq<byte> := [d];
    assert [a, b, c, d][1..] == [b, c, d] && [b, c, d][1..] == [c, d] && [c, d][1..] == last && last[1..] == [];
    assert FromLE(last) == d;
    assert FromLE([c, d]) == c + 256 * d;
    assert FromLE([b, c, d]) == b + 256 * (c + 256 * d);
  }

  // A local APIC with a length field of 12 instead of 8, and an I/O APIC.
  const MALFORMED: seq<byte> := [0, 12, 1, 11, 1, 0, 0, 0, 0, 8, 2, 22, 1, 12, 9, 0, 3, 4, 0, 0, 0, 0, 0, 0]

  // Behind any header that gives the length 68: the cursor falls behind the counter by four bytes,
  // and the walk finds a second processor in the middle of the first record and misses the I/O APIC.
  lemma PhantomProcessor(bs: seq<byte>)
    requires |bs| == 68 && bs[HEADER..] == MALFORMED
    ensures
      var w := Walk(HEADER, HEADER);
      && !WellFormed(bs, HEADER, 68) && Stops(bs, w, 68, 3)
      && EnabledIds(Visited(bs, w, 68, 3)) == [11, 22] && IoApics(Visited(bs, w, 68, 3)) == []
  {
    MalformedRounds(bs);
    hide InMemory, Round, Going;
    OneRound(bs, Walk(60, 64), 68, 0, THIRD_READ);
    OneRound(bs, Walk(52, 56), 68, 1, SECOND_READ);
    OneRound(bs, Walk(44, 44), 68, 2, FIRST_READ);
    assert Visited(bs, Walk(64, 68), 68, 0) == [];
    MalformedReads();
  }

  lemma MalformedRounds(bs: seq<byte>)
    requires |bs| == 68 && bs[HEADER..] == MALFORMED
    ensures InMemory(bs, 44) && Going(Walk(44, 44), 68) && Round(bs, Walk(44, 44)) == Walk(52, 56) && bs[44..52] == FIRST_READ
    ensures InMemory(bs, 52) && Going(Walk(52, 56), 68) && Round(bs, Walk(52, 56)) == Walk(60, 64) && bs[52..60] == SECOND_READ
    ensures InMemory(bs, 60) && Going(Walk(60, 64), 68) && Round(bs, Walk(60, 64)) == Walk(64, 68) && bs[60..64] == THIRD_READ
    ensures !Going(Walk(64, 68), 68) && !WellFormed(bs, HEADER, 68)
  {
    FirstRead(bs);
    SecondRead(bs);
    ThirdRead(bs);
    WrongLength(bs);
    hide WellFormed;
  }

  const FIRST_READ: seq<byte> := [0, 12, 1, 11, 1, 0, 0, 0]
  const SECOND_READ: seq<byte> := [0, 8, 2, 22, 1, 12, 9, 0]
  const THIRD_READ: seq<byte> := [3, 4, 0, 0]

  lemma MalformedReads()
    ensures EnabledIds([FIRST_READ] + ([SECOND_READ] + ([THIRD_READ] + []))) == [11, 22]
    ensures IoApics([FIRST_READ] + ([SECOND_READ] + ([THIRD_READ] + []))) == []
  {
    One(FIRST_READ);
    One(SECOND_READ);
    One(THIRD_READ);
    hide EnabledIds, IoApics;
    assert [THIRD_READ] + [] == [THIRD_READ];
    Join(SECOND_READ, [THIRD_READ]);
    Join(FIRST_READ, [SECOND_READ] + [THIRD_READ]);
  }

  lemma WrongLength(bs: seq<byte>)
    requires |bs| == 68 && bs[44] == 0 && bs[45] == 12
    ensures !WellFormed(bs, HEADER, 68)
  {
  }

  lemma FirstRead(bs: seq<byte>)
    requires |bs| == 68 && bs[HEADER..] == MALFORMED
    ensures bs[44] == 0 && bs[45] == 12 && bs[44..52] == FIRST_READ
  {
    MalformedBytes(bs);
    assert bs[44] == MALFORMED[0] && bs[45] == MALFORMED[1];
    assert MALFORMED[0..8] == FIRST_READ;
  }

  lemma SecondRead(bs: seq<byte>)
    requires |bs| == 68 && bs[HEADER..] == MALFORMED
    ensures bs[52] == 0 && bs[53] == 8 && bs[52..60] == SECOND_READ
  {
    MalformedBytes(bs);
    assert bs[52] == MALFORMED[8] && bs[53] == MALFORMED[9];
    assert MALFORMED[8..16] == SECOND_READ;
  }

  lemma ThirdRead(bs: seq<byte>)
    requires |bs| == 68 && bs[HEADER..] == MALFORMED
    ensures bs[60] == 3 && bs[61] == 4 && bs[60..64] == THIRD_READ
  {
    MalformedBytes(bs);
    assert bs[60] == MALFORMED[16] && bs[61] == MALFORMED[17];
    assert MALFORMED[16..20] == THIRD_READ;
  }

  lemma MalformedBytes(bs: seq<byte>)
    requires |bs| == 68 && bs[HEADER..] == MALFORMED
    ensures forall i :: 0 <= i < 24 ==> bs[HEADER + i] == MALFORMED[i]
    ensures forall i, j :: 0 <= i <= j <= 24 ==> bs[HEADER + i..HEADER + j] == MALFORMED[i..j]
  {
    assert forall i :: 0 <= i < 24 ==> bs[HEADER..][i] == bs[HEADER + i];
    forall i, j | 0 <= i <= j <= 24
      ensures bs[HEADER + i..HEADER + j] == MALFORMED[i..j]
    {
      SliceOfSlice(bs, HEADER, 68, i, j);
      assert bs[HEADER..68] == bs[HEADER..];
    }
  }

  lemma OneRound(bs: seq<byte>, w: Walk, ecx: nat, n: nat, r: seq<byte>)
    requires Going(w, ecx) && InMemory(bs, w.rsi) && Stops(bs, Round(bs, w), ecx, n)
    requires bs[w.rsi..Round(bs, w).rsi] == r
    ensures Stops(bs, w, ecx, n + 1) && Visited(bs, w, ecx, n + 1) == [r] + Visited(bs, Round(bs, w), ecx, n)
  {
  }

  // ---------- the table ----------

  function Word(n: nat): nat { n % U16 }

  function Byte(n: nat): nat { n % 256 }

  lemma CountOn(n: nat, more: nat)
    ensures Word(Word(n) + more) == Word(n + more)
    ensures Byte(Byte(n) + more) == Byte(n + more)
  {
    assert n + more == U16 * (n / U16) + (Word(n) + more);
    assert n + more == 256 * (n / 256) + (Byte(n) + more);
    hide Word, Byte;
    WordMultiple(n / U16, Word(n) + more);
    ByteMultiple(n / 256, Byte(n) + more);
  }

  lemma WordMultiple(q: nat, r: nat)
    ensures Word(U16 * q + r) == Word(r)
  {
  }

  lemma ByteMultiple(q: nat, r: nat)
    ensures Byte(256 * q + r) == Byte(r)
  {
  }

  // parseAPICTable, for every walk that ends inside the bytes: what is stored and counted belongs to
  // what the rounds read, and that is the table's records if the table is well-formed.
  method ParseAPICTable(bs: seq<byte>, table: nat, cpuDetected: nat, ioApicCount: nat, ghost n: nat)
      returns (localApic: nat, ids: seq<byte>, detected: nat, ios: seq<(nat, nat)>, ioCount: nat)
    requires table + HEADER <= |bs|
    requires Stops(bs, Walk(table + HEADER, HEADER), FromLE(bs[table + 4..table + 8]), n)
    ensures
      var length := FromLE(bs[table + 4..table + 8]);
      var records := Visited(bs, Walk(table + HEADER, HEADER), length, n);
      && localApic == FromLE(bs[table + 36..table + 40])
      && ids == EnabledIds(records)
      && detected == (cpuDetected + |EnabledIds(records)|) % 0x1_0000
      && ios == IoApics(records)
      && ioCount == (ioApicCount + |IoApics(records)|) % 0x100
      && (length < I32 && WellFormed(bs, table + HEADER, table + length) ==> records == Records(bs, table + HEADER, table + length))
  {
    hide WellFormed, Records, EnabledIds, IoApics, Word, Byte, BytesRead, Visited, InMemory, Stops, Round, ToInt32;
    var rsi: nat := table + 4;
    var ecx, flags;
    ecx, rsi := Dword(bs, rsi);
    var ebx: nat := 0;
    rsi := rsi + 1 + 1 + 4 + 2 + 8 + 4 + 4 + 4;
    localApic, rsi := Dword(bs, rsi);
    flags, rsi := Dword(bs, rsi);
    ebx := ebx + 44;
    ids, ios, detected, ioCount := [], [], Word(cpuDetected), Byte(ioApicCount);
    ghost var w0, left := Walk(table + HEADER, HEADER), n;
    ghost var records := Visited(bs, w0, ecx, n);
    while ToInt32(ebx) < ToInt32(ecx)
      invariant Stops(bs, Walk(rsi, ebx), ecx, left)
      invariant ids + EnabledIds(Visited(bs, Walk(rsi, ebx), ecx, left)) == EnabledIds(records)
      invariant ios + IoApics(Visited(bs, Walk(rsi, ebx), ecx, left)) == IoApics(records)
      invariant detected == Word(cpuDetected + |ids|) && ioCount == Byte(ioApicCount + |ios|)
      decreases left
    {
      FirstVisit(bs, Walk(rsi, ebx), ecx, left);
      var id, io;
      rsi, ebx, id, io := ReadStructure(bs, rsi, ebx);
      CountOn(cpuDetected + |ids|, |id|);
      CountOn(ioApicCount + |ios|, |io|);
      ids := ids + id;
      ios := ios + io;
      detected := Word(detected + |id|);
      ioCount := Byte(ioCount + |io|);
      left := left - 1;
    }
    LastVisit(bs, Walk(rsi, ebx), ecx, left);
    VisitedRecords(bs, table, ecx, n);
    Counters(cpuDetected + |ids|, ioApicCount + |ios|);
  }

  lemma Counters(cpus: nat, ios: nat)
    ensures Word(cpus) == cpus % 0x1_0000 && Byte(ios) == ios % 0x100
  {
  }

  lemma VisitedRecords(bs: seq<byte>, table: nat, ecx: nat, n: nat)
    requires Stops(bs, Walk(table + HEADER, HEADER), ecx, n)
    ensures ecx < I32 && WellFormed(bs, table + HEADER, table + ecx) ==>
      Visited(bs, Walk(table + HEADER, HEADER), ecx, n) == Records(bs, table + HEADER, table + ecx)
  {
    if ecx < I32 && WellFormed(bs, table + HEADER, table + ecx) {
      var m := WellFormedWalks(bs, table, Walk(table + HEADER, HEADER), ecx);
      StopsOnce(bs, Walk(table + HEADER, HEADER), ecx, n, m);
    }
  }

  lemma LastVisit(bs: seq<byte>, w: Walk, ecx: nat, n: nat)
    requires Stops(bs, w, ecx, n) && !Going(w, ecx)
    ensures n == 0 && EnabledIds(Visited(bs, w, ecx, n)) == [] && IoApics(Visited(bs, w, ecx, n)) == []
  {
  }

  lemma FirstVisit(bs: seq<byte>, w: Walk, ecx: nat, n: nat)
    requires Stops(bs, w, ecx, n) && Going(w, ecx)
    ensures n > 0 && InMemory(bs, w.rsi)
    ensures
      var next := Round(bs, w);
      var r := bs[w.rsi..next.rsi];
      && next == Walk(w.rsi + BytesRead(bs[w.rsi], bs[w.rsi + 1]), (w.ebx + bs[w.rsi + 1]) % U32)
      && Stops(bs, next, ecx, n - 1)
      && EnabledIds(Visited(bs, w, ecx, n)) == EnabledIds([r]) + EnabledIds(Visited(bs, next, ecx, n - 1))
      && IoApics(Visited(bs, w, ecx, n)) == IoApics([r]) + IoApics(Visited(bs, next, ecx, n - 1))
  {
    hide EnabledIds, IoApics, EnabledCpu;
    Join(bs[w.rsi..Round(bs, w).rsi], Visited(bs, Round(bs, w), ecx, n - 1));
  }
}

/** The size argument of the disk tool: digits and a unit letter, read into 64 bits. */
module DiskSize {
  import opened Bytes
  import opened Digits
  import opened BootDisk

  // Power of 1024 that a unit letter stands for, in either case; 0 for any other character.
  function Unit(c: byte): (f: nat)
    ensures f <= 5
  {
    if c == 75 || c == 107 then 1
    else if c == 77 || c == 109 then 2
    else if c == 71 || c == 103 then 3
    else if c == 84 || c == 116 then 4
    else if c == 80 || c == 112 then 5
    else 0
  }

  function Pow1024(f: nat): (p: nat)
    ensures p >= 1
  {
    if f == 0 then 1 else 1024 * Pow1024(f - 1)
  }

  // K, M, G, T and P in either case.
  lemma UnitFactors()
    ensures Pow1024(Unit(75)) == Pow1024(Unit(107)) == 1024
    ensures Pow1024(Unit(77)) == Pow1024(Unit(109)) == 1048576
    ensures Pow1024(Unit(71)) == Pow1024(Unit(103)) == 1073741824
    ensures Pow1024(Unit(84)) == Pow1024(Unit(116)) == 1099511627776
    ensures Pow1024(Unit(80)) == Pow1024(Unit(112)) == 1125899906842624
    ensures forall c: byte :: c !in {75, 107, 77, 109, 71, 103, 84, 116, 80, 112} ==> Unit(c) == 0
  {
    assert Pow1024(1) == 1024 && Pow1024(2) == 1048576 && Pow1024(3) == 1073741824;
    assert Pow1024(4) == 1099511627776;
  }

  // ---------- what the text says ----------

  // Digits, then at most one unit letter.
  predicate Numeric(size: seq<byte>) {
    var k := |LeadingDigits(size)|;
    size == [] || (k > 0 && (k == |size| || (k + 1 == |size| && Unit(size[k]) > 0)))
  }

  function Factor(size: seq<byte>): nat {
    var k := |LeadingDigits(size)|;
    if k < |size| then Unit(size[k]) else 0
  }

  // The number of bytes written, without any width.
  function Written(size: seq<byte>): nat {
    Value(LeadingDigits(size), 10) * Pow1024(Factor(size))
  }

  // Character by character: "0" to "9", and at the end perhaps a letter.
  predicate DigitsAndUnit(size: seq<byte>)
    requires size != []
  {
    && (forall i :: 0 <= i < |size| - 1 ==> 48 <= size[i] <= 57)
    && 48 <= size[0] <= 57
    && (48 <= size[|size| - 1] <= 57 || size[|size| - 1] in {75, 107, 77, 109, 71, 103, 84, 116, 80, 112})
  }

  lemma NumericIff(size: seq<byte>)
    ensures Numeric(size) <==> size == [] || DigitsAndUnit(size)
  {
    var k := |LeadingDigits(size)|;
    LeadingEnds(size);
    UnitFactors();
    hide LeadingDigits, Pow1024;
    assert size != [] && DigitsAndUnit(size) ==> k == |size| || k + 1 == |size|;
  }

  lemma {:induction false} LeadingEnds(s: seq<byte>)
    ensures
      var k := |LeadingDigits(s)|;
      && k <= |s| && (forall i :: 0 <= i < k ==> 48 <= s[i] <= 57) && (k < |s| ==> !(48 <= s[k] <= 57))
  {
    if s != [] && IsDigit(s[0]) {
      LeadingEnds(s[1..]);
      assert forall i :: 0 < i < |s| ==> s[i] == s[1..][i - 1];
    }
  }

  // ---------- what the code makes of it ----------

  // One digit; None is the overflow error.
  function Next(d: nat, digit: nat): Option<nat> {
    if d * 10 % U64 > d then Some((d * 10 % U64 + digit) % U64)
    else if d == 0 then Some(digit)
    else None
  }

  function Digit(ds: seq<nat>): Option<nat> {
    if ds == [] then Some(0)
    else
      var before := Digit(ds[..|ds| - 1]);
      if before.None? then None else Next(before.value, ds[|ds| - 1])
  }

  function Scaled(d: nat, f: nat): Option<nat> {
    if f == 0 || d == 0 then Some(d)
    else
      var before := Scaled(d, f - 1);
      if before.Some? && before.value * 1024 % U64 > before.value then Some(before.value * 1024 % U64) else None
  }

  function Accepted(size: seq<byte>): Option<nat> {
    if !Numeric(size) || Digit(LeadingDigits(size)).None? then None
    else
      var r := Scaled(Digit(LeadingDigits(size)).value, Factor(size));
      if r.Some? && r.value >= MINIMUM_DISK then r else None
  }

  // ---------- the meaning ----------

  lemma {:induction false} DigitsMeaning(ds: seq<nat>)
    requires Numeral(ds, 10)
    ensures Digit(ds).Some? ==> Digit(ds).value == Value(ds, 10) % U64
    ensures Digit(ds).None? ==> Value(ds, 10) >= U64
  {
    if ds != [] {
      var front := ds[..|ds| - 1];
      DigitsMeaning(front);
      NextMeaning(Value(front, 10), ds[|ds| - 1]);
    }
  }

  lemma NextMeaning(v: nat, digit: nat)
    requires digit < 10
    ensures Next(v % U64, digit).Some? ==> Next(v % U64, digit).value == (v * 10 + digit) % U64
    ensures Next(v % U64, digit).None? ==> v * 10 + digit >= U64
  {
    ModStep(v, digit);
    WrapTwice(v % U64 * 10, digit);
  }

  lemma WrapTwice(a: nat, digit: nat)
    ensures (a % U64 + digit) % U64 == (a + digit) % U64
  {
    assert a + digit == U64 * (a / U64) + (a % U64 + digit);
    ModMultiple(a / U64, a % U64 + digit);
  }

  // A number of which only the last digit can overflow.
  lemma LastDigit(m: nat, digit: nat)
    requires 1 <= m < U64 && digit < 10
    ensures Digit(Representation(m * 10 + digit, 10)) == Next(m, digit)
  {
    hide Digit, Representation, Next;
    MoreDigits(m, digit);
    DigitsOf(m);
    DigitAppend(Representation(m, 10), digit);
  }

  lemma MoreDigits(m: nat, digit: nat)
    requires 1 <= m && digit < 10
    ensures Representation(m * 10 + digit, 10) == Representation(m, 10) + [digit]
  {
    DivMod(m, digit, 10);
  }

  lemma DigitsOf(m: nat)
    requires m < U64
    ensures Digit(Representation(m, 10)) == Some(m)
  {
    hide Digit, Representation, Value, Numeral;
    RepresentationMeaning(m, 10);
    DigitsMeaning(Representation(m, 10));
  }

  lemma DigitAppend(ds: seq<nat>, digit: nat)
    ensures Digit(ds + [digit]) == if Digit(ds).None? then None else Next(Digit(ds).value, digit)
  {
    assert (ds + [digit])[..|ds|] == ds;
  }

  lemma {:induction false} ScaledMeaning(v: nat, f: nat)
    ensures var r := Scaled(v % U64, f); r.Some? ==> r.value == v * Pow1024(f) % U64
    ensures Scaled(v % U64, f).None? ==> v * Pow1024(f) >= U64
  {
    if v % U64 == 0 {
      ZeroStays(v, Pow1024(f));
    } else if f > 0 {
      ScaledMeaning(v, f - 1);
      Thousand(v * Pow1024(f - 1));
      TimesThousand(v, Pow1024(f - 1));
    } else {
      assert v * 1 == v;
    }
  }

  lemma ZeroStays(v: nat, p: nat)
    requires v % U64 == 0
    ensures v * p % U64 == 0
  {
    var q := v / U64;
    assert v * p == U64 * (q * p) by { assert v == U64 * q; }
    ModMultiple(q * p, 0);
  }

  lemma TimesThousand(v: nat, p: nat)
    ensures v * (1024 * p) == v * p * 1024
  {
  }

  lemma Thousand(w: nat)
    ensures w % U64 * 1024 % U64 == w * 1024 % U64
    ensures w % U64 != 0 && w % U64 * 1024 % U64 <= w % U64 ==> w * 1024 >= U64
  {
    var q, r := w / U64, w % U64;
    assert w * 1024 == U64 * (q * 1024) + r * 1024 by { assert w == U64 * q + r; }
    ModMultiple(q * 1024, r * 1024);
    if w * 1024 < U64 {
      assert r == w && r * 1024 % U64 == w * 1024;
    }
  }

  /** An accepted size is the written one up to 64 bits; every written size from the minimum up that
      fits in 64 bits is accepted. */
  lemma SizeMeaning(size: seq<byte>)
    ensures Accepted(size).Some? ==>
      Numeric(size) && Accepted(size).value == Written(size) % U64 && Accepted(size).value >= 6291456
    ensures Numeric(size) && 6291456 <= Written(size) < U64 ==> Accepted(size) == Some(Written(size))
  {
    hide LeadingDigits, Digit, Scaled, Value, Numeral, Unit, Pow1024;
    var ds := LeadingDigits(size);
    LeadingIsNumeral(size);
    DigitsMeaning(ds);
    var v, p := Value(ds, 10), Pow1024(Factor(size));
    ScaledMeaning(v, Factor(size));
    NotSmaller(v, p);
  }

  lemma NotSmaller(v: nat, p: nat)
    requires p >= 1
    ensures v * p >= v
  {
  }

  /** So the overflow tests are enough exactly for sizes below 2^64 bytes. */
  lemma SizeRightIff(size: seq<byte>)
    requires Accepted(size).Some?
    ensures Accepted(size).value == Written(size) <==> Written(size) < U64
  {
    SizeMeaning(size);
  }

  lemma {:induction false} LeadingIsNumeral(s: seq<byte>)
    ensures Numeral(LeadingDigits(s), 10)
  {
    if s != [] && IsDigit(s[0]) {
      LeadingIsNumeral(s[1..]);
    }
  }

  // "128M"
  lemma SizeExample()
    ensures Accepted(Text(128, 10) + [77]) == Some(134217728)
  {
    var size := Text(128, 10) + [77];
    ReadsBack(128, [77]);
    RepresentationMeaning(128, 10);
    TextIsDigits(128);
    UnitFactors();
    assert size[|Text(128, 10)|] == 77;
    hide LeadingDigits, Representation, Text, Digit, Unit, Pow1024, Accepted;
    assert Numeric(size) && Factor(size) == Unit(77) && Unit(77) > 0;
    SizeMeaning(size);
  }

  // A number of 20 digits that passes the overflow test and is taken for a smaller one.
  lemma TooLargeAccepted()
    ensures
      var text := Text(30000000000000000000, 10);
      Numeric(text) && Written(text) == 30000000000000000000 && Accepted(text) == Some(11553255926290448384)
  {
    hide LeadingDigits, Representation, Text, Digit;
    var n := 30000000000000000000;
    var text := Text(n, 10);
    assert text + [] == text;
    ReadsBack(n, []);
    RepresentationMeaning(n, 10);
    TextIsDigits(n);
    LastDigit(3000000000000000000, 0);
  }

  // ---------- the loop ----------

  // The loop over the characters.
  method ScanSize(size: seq<byte>) returns (r: Option<(nat, nat)>)
    ensures r == Scanned(size)
  {
    hide Digit, LeadingDigits;
    var diskSize, factor, i, ok := 0, 0, 0, true;
    ghost var ds := LeadingDigits(size);
    NoDigits(ds);
    while i < |size| && ok
      invariant 0 <= i <= |size|
      invariant ok ==>
        || (i <= |ds| && factor == 0 && Digit(ds[..i]) == Some(diskSize) && forall k :: 0 <= k < i ==> IsDigit(size[k]))
        || (0 < |ds| && i == |ds| + 1 == |size| && factor == Unit(size[|ds|]) > 0 && Digit(ds) == Some(diskSize))
      invariant !ok ==> !Numeric(size) || Digit(ds).None?
      decreases |size| - i
    {
      LeadingAt(size, i);
      var ch := size[i];
      if IsDigit(ch) {
        var n := ch - ZERO;
        DigitNext(ds, i);
        if diskSize * 10 % U64 > diskSize {
          diskSize := diskSize * 10 % U64;
          diskSize := (diskSize + n) % U64;
        } else if diskSize == 0 {
          diskSize := diskSize + n;
        } else {
          DigitStays(ds, i + 1);
          ok := false;
        }
      } else if i == 0 {
        ok := false;
      } else {
        assert ds[..i] == ds;
        factor := Unit(ch);
        ok := factor > 0 && i + 1 == |size|;
      }
      i := i + 1;
    }
    if !ok {
      return None;
    }
    if factor == 0 { LeadingAt(size, |size|); }
    assert ds[..|ds|] == ds;
    r := Some((diskSize, factor));
  }

  // The text without the minimum and the unit applied: a number and a power of 1024.
  function Scanned(size: seq<byte>): Option<(nat, nat)> {
    var d := Digit(LeadingDigits(size));
    if Numeric(size) && d.Some? then Some((d.value, Factor(size))) else None
  }

  method ParseSize(size: seq<byte>) returns (r: Option<nat>)
    ensures r == Accepted(size)
  {
    hide Numeric, Digit, LeadingDigits, Factor;
    var scanned := ScanSize(size);
    if scanned.None? {
      return None;
    }
    var (diskSize, factor) := scanned.value;
    var ok := true;
    ghost var value, units := diskSize, factor;
    if diskSize > 0 {
      while factor > 0
        invariant 0 <= factor <= units
        invariant Scaled(value, units - factor) == if ok then Some(diskSize) else None
        invariant diskSize > 0 && (ok || diskSize * 1024 % U64 <= diskSize)
      {
        factor := factor - 1;
        if diskSize * 1024 % U64 > diskSize {
          diskSize := diskSize * 1024 % U64;
        } else {
          ok := false;
        }
      }
    }
    return if ok && diskSize >= MINIMUM_DISK then Some(diskSize) else None;
  }

  lemma NoDigits(ds: seq<nat>)
    ensures Digit(ds[..0]) == Some(0)
  {
  }

  lemma DigitNext(ds: seq<nat>, i: nat)
    requires i < |ds|
    ensures Digit(ds[..i + 1]) == if Digit(ds[..i]).None? then None else Next(Digit(ds[..i]).value, ds[i])
  {
    assert ds[..i + 1] == ds[..i] + [ds[i]];
    DigitAppend(ds[..i], ds[i]);
  }

  // An overflow error stays one.
  lemma {:induction false} DigitStays(ds: seq<nat>, k: nat)
    requires k <= |ds| && Digit(ds[..k]).None?
    ensures Digit(ds).None?
    decreases |ds| - k
  {
    if k == |ds| {
      assert ds[..k] == ds;
    } else {
      assert ds[..k + 1][..k] == ds[..k];
      DigitStays(ds, k + 1);
    }
  }
}

/** Numbers as text: the console's conversion to any base, and itoa and atoi of the user library. */
module Digits {
  import opened Bytes

  // ---------- representations ----------

  // Most significant digit first.
  function Representation(v: nat, base: nat): (ds: seq<nat>)
    requires 2 <= base
    ensures ds != []
  {
    if v < base then [v]
    else
      Quotient(v, base);
      Representation(v / base, base) + [v % base]
  }

  function Value(ds: seq<nat>, base: nat): nat {
    if ds == [] then 0 else Value(ds[..|ds| - 1], base) * base + ds[|ds| - 1]
  }

  ghost predicate Numeral(ds: seq<nat>, base: nat) {
    forall i :: 0 <= i < |ds| ==> ds[i] < base
  }

  predicate NoLeadingZero(ds: seq<nat>) {
    ds != [] && (|ds| > 1 ==> ds[0] != 0)
  }

  lemma DivMod(q: nat, r: nat, base: nat)
    requires r < base
    ensures (q * base + r) / base == q && (q * base + r) % base == r
  {
    var n := q * base + r;
    DivisionLaw(n, base);
    SameQuotient(q, r, n / base, n % base, base);
  }

  lemma DivisionLaw(n: nat, base: nat)
    requires 0 < base
    ensures n / base * base + n % base == n
  {
  }

  lemma SameQuotient(q: nat, r: nat, q': nat, r': nat, base: nat)
    requires q * base + r == q' * base + r' && r < base && r' < base
    ensures q == q' && r == r'
  {
    assert (q - q') * base == r' - r;
    SmallMultiple(q - q', base);
  }

  lemma SmallMultiple(k: int, base: nat)
    requires 0 - base < k * base < base
    ensures k == 0
  {
    Multiple(k, base);
  }

  lemma Multiple(k: int, base: nat)
    ensures k >= 1 ==> k * base >= base
    ensures k <= -1 ==> k * base <= 0 - base
  {
  }

  // The representation is a numeral of the value without leading zeros...
  lemma {:induction false} RepresentationMeaning(v: nat, base: nat)
    requires 2 <= base
    ensures
      var ds := Representation(v, base);
      Value(ds, base) == v && Numeral(ds, base) && NoLeadingZero(ds) && (ds[0] == 0 ==> v == 0)
    decreases v
  {
    var ds := Representation(v, base);
    if v < base {
      assert ds[..0] == [];
    } else {
      Quotient(v, base);
      RepresentationMeaning(v / base, base);
      assert ds[..|ds| - 1] == Representation(v / base, base);
    }
  }

  lemma Quotient(v: nat, base: nat)
    requires 2 <= base <= v
    ensures 0 < v / base < v && v / base * base + v % base == v
  {
    DivisionLaw(v, base);
    var q := v / base;
    assert q * base >= q * 2;
  }

  // ... and the only one.
  lemma {:induction false} RepresentationUnique(ds: seq<nat>, base: nat)
    requires 2 <= base && Numeral(ds, base) && NoLeadingZero(ds)
    ensures Representation(Value(ds, base), base) == ds
    decreases |ds|
  {
    var n := |ds|;
    var front, last := ds[..n - 1], ds[n - 1];
    if n == 1 {
      assert front == [];
    } else {
      RepresentationUnique(front, base);
      PositiveValue(front, base);
      Appended(Value(front, base), last, base);
      assert front + [last] == ds;
    }
  }

  lemma Appended(v: nat, d: nat, base: nat)
    requires 2 <= base && d < base && 0 < v
    ensures Representation(v * base + d, base) == Representation(v, base) + [d]
  {
    DivMod(v, d, base);
    assert v * base >= base;
  }

  lemma {:induction false} PositiveValue(ds: seq<nat>, base: nat)
    requires 2 <= base && ds != [] && ds[0] != 0
    ensures Value(ds, base) > 0
    decreases |ds|
  {
    if |ds| > 1 {
      PositiveValue(ds[..|ds| - 1], base);
    }
  }

  // No numeral of the same value is shorter.
  lemma {:induction false} RepresentationMinimal(ds: seq<nat>, base: nat)
    requires 2 <= base && Numeral(ds, base) && ds != []
    ensures |Representation(Value(ds, base), base)| <= |ds|
    decreases |ds|
  {
    var n := |ds|;
    var front, last := ds[..n - 1], ds[n - 1];
    if n > 1 {
      RepresentationMinimal(front, base);
      if Value(front, base) > 0 {
        Appended(Value(front, base), last, base);
      }
    }
  }

  // ---------- characters ----------

  const ZERO: int := 48
  const LETTER_A: int := 65
  const MINUS: int := 45

  // The character of a digit: 0 to 9, then letters.
  function DigitChar(d: nat): byte
    requires d < 36
  {
    if d < 10 then ZERO + d else LETTER_A + d - 10
  }

  // "0" to "9" and "A" to "Z".
  lemma DigitCharacters(d: nat)
    requires d < 36
    ensures DigitChar(d) == if d <= 9 then 48 + d else 65 + (d - 10)
    ensures DigitChar(0) == 48 && DigitChar(9) == 57 && DigitChar(10) == 65 && DigitChar(35) == 90
  {
  }

  // The string of a number, without its terminator.
  function Text(v: nat, base: nat): (r: seq<byte>)
    requires 2 <= base <= 36
    ensures |r| == |Representation(v, base)|
    ensures forall i :: 0 <= i < |r| ==> Representation(v, base)[i] < 36 && r[i] == DigitChar(Representation(v, base)[i])
  {
    RepresentationMeaning(v, base);
    var ds := Representation(v, base);
    seq(|ds|, i requires 0 <= i < |ds| => DigitChar(ds[i]))
  }

  lemma TextStep(v: nat, base: nat)
    requires 2 <= base <= 36
    ensures v < base ==> Text(v, base) == [DigitChar(v)]
    ensures base <= v ==> v % base < base && Text(v, base) == Text(v / base, base) + [DigitChar(v % base)]
  {
  }

  function Reverse(s: seq<byte>): (r: seq<byte>)
    ensures |r| == |s| && forall i :: 0 <= i < |s| ==> r[i] == s[|s| - 1 - i]
  {
    seq(|s|, i requires 0 <= i < |s| => s[|s| - 1 - i])
  }

  // The swapping loop of `reverse_str` and of `uintToBase`.
  method ReverseStr(str: array<byte>, length: nat)
    requires length <= str.Length
    modifies str
    ensures str[..length] == Reverse(old(str[..length]))
    ensures forall k :: length <= k < str.Length ==> str[k] == old(str[k])
  {
    var start, end := 0, length - 1;
    while start < end
      invariant 0 <= start <= length && start + end == length - 1 && start <= end + 2
      invariant forall k :: 0 <= k < length && (k < start || end < k) ==> str[k] == old(str[length - 1 - k])
      invariant forall k :: start <= k <= end || length <= k < str.Length ==> str[k] == old(str[k])
    {
      var temp := str[start];
      str[start] := str[end];
      str[end] := temp;
      start := start + 1;
      end := end - 1;
    }
  }

  // The digit loop both conversions share in their text: least significant digit first.
  lemma DigitWritten(v: nat, base: nat, value: nat, written: seq<byte>)
    requires 2 <= base <= 36 && Text(value, base) == Text(v, base) + Reverse(written)
    ensures v < base ==> Text(value, base) == Reverse(written + [DigitChar(v)])
    ensures base <= v ==> v % base < 36 && Text(value, base) == Text(v / base, base) + Reverse(written + [DigitChar(v % base)])
  {
    TextStep(v, base);
    if v < base {
      assert [DigitChar(v)] + Reverse(written) == Reverse(written + [DigitChar(v)]);
    } else {
      assert [DigitChar(v % base)] + Reverse(written) == Reverse(written + [DigitChar(v % base)]);
    }
  }

  // `uintToBase`: the text of the value in the base, ended by a NUL, and its number of digits.
  method UintToBase(value: nat, buffer: array<byte>, base: nat) returns (digits: nat)
    requires 2 <= base <= 36 && |Representation(value, base)| < buffer.Length
    modifies buffer
    ensures digits == |Representation(value, base)|
    ensures buffer[..digits] == Text(value, base) && buffer[digits] == 0
    ensures forall k :: digits < k < buffer.Length ==> buffer[k] == old(buffer[k])
  {
    hide Text, Reverse, Representation;
    var p, v: nat := 0, value;
    digits := 0;
    assert Text(value, base) == Text(value, base) + Reverse(buffer[..0]);
    while true
      invariant p == digits < |Representation(value, base)| && Text(value, base) == Text(v, base) + Reverse(buffer[..p])
      invariant forall k :: |Representation(value, base)| <= k < buffer.Length ==> buffer[k] == old(buffer[k])
      decreases v
    {
      DigitWritten(v, base, value, buffer[..p]);
      Quotients(v, base);
      var remainder := v % base;
      buffer[p] := if remainder < 10 then remainder + ZERO else remainder + LETTER_A - 10;
      p := p + 1;
      digits := digits + 1;
      v := v / base;
      if v == 0 { break; }
    }
    buffer[p] := 0;
    ReverseStr(buffer, p);
  }

  lemma Quotients(v: nat, base: nat)
    requires 2 <= base
    ensures v < base ==> v / base == 0 && v % base == v
    ensures base <= v ==> 0 < v / base < v
  {
    if base <= v { Quotient(v, base); }
  }

  // ---------- itoa and atoi ----------

  // `itoa`: decimal text ended by a NUL. (An unsigned number is never negative.)
  method Itoa(number: nat, buff: array<byte>)
    requires |Representation(number, 10)| < buff.Length
    modifies buff
    ensures
      var n := |Representation(number, 10)|;
      && buff[..n] == Text(number, 10) && buff[n] == 0
      && forall k :: n < k < buff.Length ==> buff[k] == old(buff[k])
  {
    ghost var size := |Representation(number, 10)|;
    if number == 0 {
      TextStep(0, 10);
      buff[0] := ZERO;
      buff[1] := 0;
      return;
    }
    hide Text, Reverse, Representation;
    var i, rest: nat := 0, number;
    assert Text(number, 10) == Text(number, 10) + Reverse(buff[..0]);
    while rest != 0
      invariant i <= size && (rest != 0 ==> i < size && Text(number, 10) == Text(rest, 10) + Reverse(buff[..i]))
      invariant rest == 0 ==> Text(number, 10) == Reverse(buff[..i])
      invariant forall k :: size <= k < buff.Length ==> buff[k] == old(buff[k])
      decreases rest
    {
      DigitWritten(rest, 10, number, buff[..i]);
      Quotients(rest, 10);
      var digit := rest % 10;
      buff[i] := ZERO + digit;
      i := i + 1;
      rest := rest / 10;
    }
    buff[i] := 0;
    ReverseStr(buff, i);
  }

  predicate IsDigit(c: byte) {
    ZERO <= c <= ZERO + 9
  }

  // The digits at the front of a string.
  function LeadingDigits(s: seq<byte>): (ds: seq<nat>)
    ensures |ds| <= |s|
  {
    if s == [] || !IsDigit(s[0]) then [] else [s[0] - ZERO] + LeadingDigits(s[1..])
  }

  // What `atoi` answers: the leading digits read as a decimal number, in 64 bits. Behind a minus
  // sign the factor is -1 in an unsigned byte, which is 255.
  function Parsed(s: seq<byte>): nat {
    if s != [] && s[0] == MINUS then Value(LeadingDigits(s[1..]), 10) * 255 % U64
    else Value(LeadingDigits(s), 10) % U64
  }

  lemma {:induction false} LeadingAt(s: seq<byte>, k: nat)
    requires k <= |s| && forall i :: 0 <= i < k ==> IsDigit(s[i])
    ensures k <= |LeadingDigits(s)|
    ensures k < |s| && IsDigit(s[k]) ==> k < |LeadingDigits(s)| && LeadingDigits(s)[k] == s[k] - ZERO
    ensures k < |s| && !IsDigit(s[k]) ==> |LeadingDigits(s)| == k
  {
    if k > 0 {
      LeadingAt(s[1..], k - 1);
    }
  }

  lemma ValueNext(ds: seq<nat>, k: nat, ans: nat)
    requires k < |ds| && ans == Value(ds[..k], 10) % U64
    ensures (ans * 10 + ds[k]) % U64 == Value(ds[..k + 1], 10) % U64
  {
    assert ds[..k + 1][..k] == ds[..k];
    ModStep(Value(ds[..k], 10), ds[k]);
  }

  lemma ModStep(a: nat, d: nat)
    ensures (a % U64 * 10 + d) % U64 == (a * 10 + d) % U64
  {
    var q := a / U64;
    assert a * 10 + d == U64 * (q * 10) + (a % U64 * 10 + d);
    ModMultiple(q * 10, a % U64 * 10 + d);
  }

  lemma ModMultiple(q: nat, r: nat)
    ensures (U64 * q + r) % U64 == r % U64
  {
  }

  // `atoi`
  method Atoi(str: seq<byte>) returns (ans: nat)
    requires exists i :: 0 <= i < |str| && str[i] == 0
    ensures ans == Parsed(str)
  {
    ans := 0;
    var i, sign := 0, 1;
    if str[i] == MINUS {
      sign := 255;
      i := i + 1;
    }
    ghost var first := i;
    ghost var s, ds := str[first..], LeadingDigits(str[first..]);
    ghost var nul :| 0 <= nul < |str| && str[nul] == 0;
    assert first == 0 ==> s == str;
    while IsDigit(str[i])
      invariant first <= i <= nul
      invariant forall k :: 0 <= k < i - first ==> IsDigit(s[k])
      invariant i - first <= |ds| && ans == Value(ds[..i - first], 10) % U64
      decreases nul - i
    {
      assert s[i - first] == str[i];
      LeadingAt(s, i - first);
      ValueNext(ds, i - first, ans);
      ans := (ans * 10 + (str[i] - ZERO)) % U64;
      i := i + 1;
    }
    assert s[i - first] == str[i];
    LeadingAt(s, i - first);
    assert ds[..i - first] == ds;
    SignFactor(Value(ds, 10), sign);
    return ans * sign % U64;
  }

  lemma SignFactor(v: nat, sign: nat)
    requires sign == 1 || sign == 255
    ensures v % U64 * sign % U64 == v * sign % U64
  {
    var q := v / U64;
    assert v * sign == U64 * (q * sign) + v % U64 * sign by {
      assert v == U64 * q + v % U64;
    }
    ModMultiple(q * sign, v % U64 * sign);
  }

  // Exactly the characters "0" to "9" are read, up to the first other one, and "-1" is 255.
  lemma AtoiExamples()
    ensures forall c: byte :: IsDigit(c) <==> 48 <= c <= 57
    ensures Parsed([49, 50, 58, 0]) == 12 && Parsed([45, 49, 0]) == 255
  {
    var one: seq<byte> := [49, 50, 58, 0];
    assert one[1..] == [50, 58, 0] && one[1..][1..] == [58, 0];
    assert LeadingDigits([58, 0]) == [] && LeadingDigits([50, 58, 0]) == [2] && LeadingDigits(one) == [1, 2];
    assert [1, 2][..1] == [1];
    var single: seq<nat> := [1];
    assert single[..0] == [] && Value(single, 10) == 1;
    var negative: seq<byte> := [45, 49, 0];
    assert negative[1..] == [49, 0] && [49, 0][1..] == [0];
    var nul: seq<byte> := [0];
    assert LeadingDigits(nul) == [] && LeadingDigits([49, 0]) == single;
  }

  // Reading back what `itoa` wrote gives the number again, for every 64-bit number.
  lemma AtoiOfItoa(n: nat, rest: seq<byte>)
    requires n < U64
    ensures Parsed(Text(n, 10) + [0] + rest) == n
  {
    hide Representation, LeadingDigits, Value, Text;
    var s := Text(n, 10) + [0] + rest;
    assert s == Text(n, 10) + ([0] + rest);
    ReadsBack(n, [0] + rest);
    RepresentationMeaning(n, 10);
    TextIsDigits(n);
    assert s[0] == Text(n, 10)[0];
  }

  // The digits in front of anything else are the number's.
  lemma ReadsBack(n: nat, rest: seq<byte>)
    requires rest == [] || !IsDigit(rest[0])
    ensures LeadingDigits(Text(n, 10) + rest) == Representation(n, 10)
  {
    hide Representation, LeadingDigits, Value, Text;
    var text, ds := Text(n, 10), Representation(n, 10);
    var s := text + rest;
    TextIsDigits(n);
    assert forall i :: 0 <= i < |text| ==> s[i] == text[i];
    assert rest != [] ==> s[|text|] == rest[0];
    LeadingAt(s, |text|);
    forall i | 0 <= i < |text|
      ensures LeadingDigits(s)[i] == ds[i]
    {
      LeadingAt(s, i);
    }
    assert LeadingDigits(s) == ds;
  }

  lemma TextIsDigits(n: nat)
    ensures Text(n, 10) != [] && |Text(n, 10)| == |Representation(n, 10)|
    ensures forall i :: 0 <= i < |Text(n, 10)| ==> IsDigit(Text(n, 10)[i]) && Text(n, 10)[i] - ZERO == Representation(n, 10)[i]
  {
    RepresentationMeaning(n, 10);
    hide Representation, Text;
  }

  // The text of a number determines it, in every base: different numbers look different.
  lemma TextInjective(v: nat, w: nat, base: nat)
    requires 2 <= base <= 36 && Text(v, base) == Text(w, base)
    ensures v == w
  {
    hide Representation, Text, Value, Numeral, NoLeadingZero;
    var ds, es := Representation(v, base), Representation(w, base);
    RepresentationMeaning(v, base);
    RepresentationMeaning(w, base);
    forall i | 0 <= i < |ds|
      ensures ds[i] == es[i]
    {
      assert Text(v, base)[i] == DigitChar(ds[i]) && Text(w, base)[i] == DigitChar(es[i]);
    }
    assert ds == es;
  }
}

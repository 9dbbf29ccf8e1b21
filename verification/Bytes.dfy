/** Machine widths, bytes, little-endian words and overlays on byte sequences. */
module Bytes {

  type byte = b: int | 0 <= b < 256

  const I32: nat := 0x8000_0000
  const U32: nat := 0x1_0000_0000
  const U64: nat := 0x1_0000_0000_0000_0000

  datatype Option<T> = None | Some(value: T)

  // Conversion of an unsigned 64-bit number to a 32-bit int.
  function ToInt32(x: int): int {
    var low := x % U32;
    if low < I32 then low else low - U32
  }

  // A difference of less than 2^31 either way survives both conversions.
  lemma ExactDelta(d: int)
    requires 0 - I32 < d < I32
    ensures ToInt32(d % U64) == d
  {
    if d < 0 {
      WrapDown(d);
    }
  }

  lemma WrapDown(d: int)
    requires 0 - I32 < d < 0
    ensures d % U64 % U32 == d + U32
  {
    assert d % U64 == d + U64;
    assert d + U64 == (U32 - 1) * U32 + (d + U32);
  }

  function Pow256(w: nat): (r: nat)
    ensures 0 < r
  {
    if w == 0 then 1 else 256 * Pow256(w - 1)
  }

  // The `w` low bytes of `n`, least significant first.
  function LE(n: nat, w: nat): (r: seq<byte>)
    ensures |r| == w
    decreases w
  {
    if w == 0 then [] else [n % 256] + LE(n / 256, w - 1)
  }

  // Least significant first.
  lemma LittleEndian()
    ensures LE(0x11223344, 4) == [0x44, 0x33, 0x22, 0x11] && FromLE([0x44, 0x33, 0x22, 0x11]) == 0x11223344
  {
    assert LE(0x11, 1) == [0x11] && LE(0x1122, 2) == [0x22, 0x11] && LE(0x112233, 3) == [0x33, 0x22, 0x11];
    assert [0x44, 0x33, 0x22, 0x11][1..] == [0x33, 0x22, 0x11] && [0x33, 0x22, 0x11][1..] == [0x22, 0x11];
    var last: seq<byte> := [0x11];
    assert [0x22, 0x11][1..] == last && last[1..] == [];
    assert FromLE(last) == 0x11;
  }

  function FromLE(bs: seq<byte>): (n: nat) {
    if bs == [] then 0 else bs[0] + 256 * FromLE(bs[1..])
  }

  lemma {:induction false} FromLERange(bs: seq<byte>)
    ensures FromLE(bs) < Pow256(|bs|)
  {
    if bs != [] {
      FromLERange(bs[1..]);
    }
  }

  // Writing a number as `w` bytes and reading it back.
  lemma {:induction false} RoundTripLE(n: nat, w: nat)
    requires n < Pow256(w)
    ensures FromLE(LE(n, w)) == n
    decreases w
  {
    if w != 0 {
      RoundTripLE(n / 256, w - 1);
      assert LE(n, w)[1..] == LE(n / 256, w - 1);
    }
  }

  lemma {:induction false} RoundTripBytes(bs: seq<byte>)
    ensures LE(FromLE(bs), |bs|) == bs
  {
    if bs != [] {
      RoundTripBytes(bs[1..]);
      assert FromLE(bs) % 256 == bs[0] && FromLE(bs) / 256 == FromLE(bs[1..]);
    }
  }

  // `bs` written over `m` from offset `at`.
  function Blit(m: seq<byte>, at: nat, bs: seq<byte>): (r: seq<byte>)
    requires at + |bs| <= |m|
    ensures |r| == |m|
  {
    m[..at] + bs + m[at + |bs|..]
  }

  lemma BlitAt(m: seq<byte>, at: nat, bs: seq<byte>, k: nat)
    requires at + |bs| <= |m| && k < |m|
    ensures Blit(m, at, bs)[k] == if at <= k < at + |bs| then bs[k - at] else m[k]
  {
  }

  // A range apart from the written one reads as before.
  lemma BlitApart(m: seq<byte>, at: nat, bs: seq<byte>, lo: nat, hi: nat)
    requires at + |bs| <= |m| && lo <= hi <= |m| && (hi <= at || at + |bs| <= lo)
    ensures Blit(m, at, bs)[lo..hi] == m[lo..hi]
  {
  }

  lemma BlitInside(m: seq<byte>, at: nat, bs: seq<byte>)
    requires at + |bs| <= |m|
    ensures Blit(m, at, bs)[at..at + |bs|] == bs
  {
  }

  // One more byte of an overlay.
  lemma BlitNext(m: seq<byte>, at: nat, bs: seq<byte>, b: byte)
    requires at + |bs| < |m|
    ensures Blit(m, at, bs + [b]) == Blit(m, at, bs)[at + |bs| := b]
  {
  }

  lemma SliceOfSlice(s: seq<byte>, lo: nat, hi: nat, i: nat, j: nat)
    requires lo <= hi <= |s| && i <= j <= hi - lo
    ensures s[lo..hi][i..j] == s[lo + i..lo + j]
  {
    var t := s[lo..hi];
    assert forall k :: 0 <= k < hi - lo ==> t[k] == s[lo + k];
    assert forall k :: i <= k < j ==> t[i..j][k - i] == t[k];
  }

  // Bytes stored one after the other, from `at` upwards.
  method Store(mem: array<byte>, at: nat, data: seq<byte>)
    requires at + |data| <= mem.Length
    modifies mem
    ensures mem[..] == Blit(old(mem[..]), at, data)
  {
    for i := 0 to |data|
      invariant mem[..] == Blit(old(mem[..]), at, data[..i])
    {
      BlitNext(old(mem[..]), at, data[..i], data[i]);
      mem[at + i] := data[i];
      assert data[..i + 1] == data[..i] + [data[i]];
    }
    assert data[..|data|] == data;
  }
}

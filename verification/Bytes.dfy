/** Bytes, big- and little-endian fields, and the in-place field store every rewrite uses. */
module Bytes {

  type byte = b: int | 0 <= b < 256

  type u16 = v: int | 0 <= v < 0x1_0000

  /** An IP packet or a TUN frame, byte for byte. */
  type Packet = seq<byte>

  const U16_LIMIT := 0x1_0000
  const U32_LIMIT := 0x1_0000_0000
  const U64_LIMIT := 0x1_0000_0000_0000_0000

  function Word(hi: int, lo: int): int {
    hi * 256 + lo
  }

  function U16At(s: seq<byte>, i: nat): (v: nat)
    requires i + 2 <= |s|
    ensures v < U16_LIMIT
  {
    Word(s[i], s[i + 1])
  }

  function BigEndian(s: seq<byte>): nat {
    if s == [] then 0 else BigEndian(s[..|s| - 1]) * 256 + s[|s| - 1]
  }

  lemma BigEndian4(s: seq<byte>)
    requires |s| == 4
    ensures BigEndian(s) == Word(s[0], s[1]) * U16_LIMIT + Word(s[2], s[3])
  {
    assert s[..3][..2] == s[..2] && s[..2][..1] == s[..1];
    assert BigEndian(s[..1]) == s[0];
    assert BigEndian(s[..2]) == Word(s[0], s[1]);
  }

  function U32At(s: seq<byte>, i: nat): (v: nat)
    requires i + 4 <= |s|
    ensures v < U32_LIMIT
  {
    BigEndian4(s[i..i + 4]);
    BigEndian(s[i..i + 4])
  }

  lemma U32Same(a: seq<byte>, i: nat, b: seq<byte>, j: nat)
    requires i + 4 <= |a| && j + 4 <= |b|
    requires a[i] == b[j] && a[i + 1] == b[j + 1] && a[i + 2] == b[j + 2] && a[i + 3] == b[j + 3]
    ensures U32At(a, i) == U32At(b, j)
  {
    assert a[i..i + 4] == b[j..j + 4];
  }

  lemma U32Words(s: seq<byte>, i: nat)
    requires i + 4 <= |s|
    ensures U32At(s, i) == U16At(s, i) * U16_LIMIT + U16At(s, i + 2)
  {
    BigEndian4(s[i..i + 4]);
  }

  function U64At(s: seq<byte>, i: nat): (v: nat)
    requires i + 8 <= |s|
    ensures v < U64_LIMIT
  {
    U32At(s, i) * U32_LIMIT + U32At(s, i + 4)
  }

  function Be16(v: nat): (s: seq<byte>)
    requires v < U16_LIMIT
    ensures |s| == 2 && U16At(s, 0) == v
  {
    [v / 256, v % 256]
  }

  function Be32(v: nat): (s: seq<byte>)
    requires v < U32_LIMIT
    ensures |s| == 4 && U32At(s, 0) == v
  {
    var r := Be16(v / U16_LIMIT) + Be16(v % U16_LIMIT);
    U32Words(r, 0);
    r
  }

  function Be64(v: nat): (s: seq<byte>)
    requires v < U64_LIMIT
    ensures |s| == 8 && U64At(s, 0) == v
  {
    var high, low := Be32(v / U32_LIMIT), Be32(v % U32_LIMIT);
    U32Same(high + low, 0, high, 0);
    U32Same(high + low, 4, low, 0);
    high + low
  }

  /** `s[i..i + |patch|].copy_from_slice(patch)`. */
  function Splice(s: seq<byte>, i: nat, patch: seq<byte>): (r: seq<byte>)
    requires i + |patch| <= |s|
    ensures |r| == |s|
    ensures forall k :: 0 <= k < |s| ==> r[k] == if i <= k < i + |patch| then patch[k - i] else s[k]
  {
    s[..i] + patch + s[i + |patch|..]
  }

  /** Two packets of one length that differ at most in the bytes `[i, i + n)`. */
  ghost predicate SameOutside(a: seq<byte>, b: seq<byte>, i: nat, n: nat) {
    |a| == |b| && forall k :: 0 <= k < |a| && !(i <= k < i + n) ==> a[k] == b[k]
  }

  /** Fields are big-endian, digit by digit. */
  lemma FieldsAreBigEndian(s: seq<byte>, i: nat)
    ensures i + 2 <= |s| ==> U16At(s, i) == 0x100 * (s[i] as int) + s[i + 1]
    ensures i + 4 <= |s| ==> U32At(s, i) == 0x100_0000 * (s[i] as int) + 0x1_0000 * (s[i + 1] as int) + 0x100 * (s[i + 2] as int) + s[i + 3]
    ensures i + 8 <= |s| ==> U64At(s, i) == 0x1_0000_0000 * U32At(s, i) + U32At(s, i + 4)
  {
    hide U32At;
    if i + 4 <= |s| {
      U32Words(s, i);
    }
  }

  /** A word gives back its digits. */
  lemma WordDigits(hi: byte, lo: byte)
    ensures Word(hi, lo) / 256 == hi && Word(hi, lo) % 256 == lo
  {
  }

  lemma HalvesSplit(high: int, low: int, high': int, low': int)
    requires 0 <= low < U16_LIMIT && 0 <= low' < U16_LIMIT
    requires high * U16_LIMIT + low == high' * U16_LIMIT + low'
    ensures high == high' && low == low'
  {
  }

  /** Big-endian fields are injective: equal values, equal bytes. */
  lemma U16Injective(a: seq<byte>, i: nat, b: seq<byte>, j: nat)
    requires i + 2 <= |a| && j + 2 <= |b|
    requires U16At(a, i) == U16At(b, j)
    ensures a[i] == b[j] && a[i + 1] == b[j + 1]
  {
    WordDigits(a[i], a[i + 1]);
    WordDigits(b[j], b[j + 1]);
  }

  lemma U32Injective(a: seq<byte>, i: nat, b: seq<byte>, j: nat)
    requires i + 4 <= |a| && j + 4 <= |b|
    requires U32At(a, i) == U32At(b, j)
    ensures a[i..i + 4] == b[j..j + 4]
  {
    hide U16At, U32At;
    U32Words(a, i);
    U32Words(b, j);
    HalvesSplit(U16At(a, i), U16At(a, i + 2), U16At(b, j), U16At(b, j + 2));
    U16Injective(a, i, b, j);
    U16Injective(a, i + 2, b, j + 2);
  }

  /** A growable byte buffer that callers lend out and reuse (`&mut Vec<u8>`, `&mut BytesMut`). */
  lemma SliceBytes(a: seq<byte>, b: seq<byte>, i: nat, n: nat)
    requires i <= n <= |a| && n <= |b| && a[i..n] == b[i..n]
    ensures forall k :: i <= k < n ==> a[k] == b[k]
  {
    assert forall k :: i <= k < n ==> a[k] == a[i..n][k - i] && b[k] == b[i..n][k - i];
  }

  class Buffer {
    var bytes: seq<byte>

    constructor ()
      ensures bytes == []
    {
      bytes := [];
    }
  }

  function Concat(parts: seq<seq<byte>>): seq<byte> {
    if parts == [] then [] else parts[0] + Concat(parts[1..])
  }

  lemma {:induction false} ConcatAppend(a: seq<seq<byte>>, b: seq<seq<byte>>)
    ensures Concat(a + b) == Concat(a) + Concat(b)
  {
    if a == [] {
      assert a + b == b;
    } else {
      ConcatAppend(a[1..], b);
      assert (a + b)[0] == a[0] && (a + b)[1..] == a[1..] + b;
      assert a[0] + (Concat(a[1..]) + Concat(b)) == (a[0] + Concat(a[1..])) + Concat(b);
    }
  }

  lemma ConcatSnoc(a: seq<seq<byte>>, s: seq<byte>)
    ensures Concat(a + [s]) == Concat(a) + s
  {
    ConcatAppend(a, [s]);
    assert Concat([s]) == s + Concat([]) == s;
  }
}

/** Bytes, byte buffers and 32-bit integers laid out in bytes. */
module Bytes {

  type byte = b: int | 0 <= b < 256

  function Min(a: int, b: int): int {
    if a < b then a else b
  }

  /** memmove(a + at, data, |data|). */
  method Store(a: array<byte>, at: nat, data: seq<byte>)
    requires at + |data| <= a.Length
    modifies a
    ensures a[..] == old(a[..at]) + data + old(a[at + |data|..])
  {
    forall i | 0 <= i < |data| {
      a[at + i] := data[i];
    }
  }

  // ---- 32-bit integers ----

  const TWO_31 := 0x8000_0000
  const TWO_32 := 0x1_0000_0000
  const TWO_64 := 0x1_0000_0000_0000_0000

  type int32 = i: int | -TWO_31 <= i < TWO_31

  function Unsigned(i: int32): nat {
    if i < 0 then i + TWO_32 else i
  }

  function Signed(u: nat): int32
    requires u < TWO_32
  {
    if u >= TWO_31 then u - TWO_32 else u
  }

  /** The bytes of u, least significant first. */
  function Little(u: nat): (r: seq<byte>)
    requires u < TWO_32
    ensures |r| == 4
  {
    [u % 0x100, u / 0x100 % 0x100, u / 0x1_0000 % 0x100, u / 0x100_0000]
  }

  function LittleValue(s: seq<byte>): (u: nat)
    requires |s| == 4
    ensures u < TWO_32
  {
    s[0] as int + 0x100 * (s[1] as int) + 0x1_0000 * (s[2] as int) + 0x100_0000 * (s[3] as int)
  }

  lemma LittleRoundTrip(u: nat)
    requires u < TWO_32
    ensures LittleValue(Little(u)) == u
  {
    var a, b, c := u / 0x100, u / 0x10000, u / 0x100_0000;
    assert u == u % 0x100 + 0x100 * a;
    assert a == a % 0x100 + 0x100 * b;
    assert b == b % 0x100 + 0x100 * c;
  }

  function Reversed(s: seq<byte>): (r: seq<byte>)
    requires |s| == 4
    ensures |r| == 4
  {
    [s[3], s[2], s[1], s[0]]
  }

  /** An int32 as a little-endian machine stores it. */
  function HostBytes(i: int32): (r: seq<byte>)
    ensures |r| == 4
  {
    Little(Unsigned(i))
  }

  function HostValue(s: seq<byte>): int32
    requires |s| == 4
  {
    Signed(LittleValue(s))
  }

  lemma HostRoundTrip(i: int32)
    ensures HostValue(HostBytes(i)) == i
  {
    LittleRoundTrip(Unsigned(i));
  }

  /** An int32 after htonl on a little-endian machine. */
  function NetBytes(i: int32): (r: seq<byte>)
    ensures |r| == 4
  {
    Reversed(HostBytes(i))
  }

  function NetValue(s: seq<byte>): int32
    requires |s| == 4
  {
    HostValue(Reversed(s))
  }

  lemma NetRoundTrip(i: int32)
    ensures NetValue(NetBytes(i)) == i
  {
    HostRoundTrip(i);
    assert Reversed(NetBytes(i)) == HostBytes(i);
  }

  /** The number that four bytes make up, from the most significant one. */
  function Number(a: int, b: int, c: int, d: int): int {
    0x100_0000 * a + 0x1_0000 * b + 0x100 * c + d
  }

  /** htonl puts the most significant byte first. */
  lemma {:induction false} NetIsBigEndian(i: int32)
    ensures var s := NetBytes(i); Number(s[0], s[1], s[2], s[3]) == if i < 0 then i + TWO_32 else i
  {
    LittleRoundTrip(Unsigned(i));
  }

  /** And is undone, the number brought into the range of an int32. */
  lemma {:induction false} NetValueIs(s: seq<byte>)
    requires |s| == 4
    ensures var u := Number(s[0], s[1], s[2], s[3]); NetValue(s) == if u < TWO_31 then u else u - TWO_32
  {
    assert Reversed(s)[0] == s[3] && Reversed(s)[1] == s[2] && Reversed(s)[2] == s[1] && Reversed(s)[3] == s[0];
  }

  lemma {:induction false} LittleIsLittleEndian(u: nat)
    requires u < TWO_32
    ensures var s := Little(u); Number(s[3], s[2], s[1], s[0]) == u
  {
    LittleRoundTrip(u);
  }

  /** In memory the least significant byte is first. */
  lemma {:induction false} HostIsLittleEndian(i: int32)
    ensures var s := HostBytes(i); Number(s[3], s[2], s[1], s[0]) == if i < 0 then i + TWO_32 else i
  {
    LittleRoundTrip(Unsigned(i));
  }

  // ---- C division ----

  /** Division that truncates toward zero, and its remainder. */
  function Quotient(a: int, b: int): int
    requires b > 0
  {
    if a >= 0 then a / b else 0 - (0 - a) / b
  }

  function Remainder(a: int, b: int): int
    requires b > 0
  {
    a - b * Quotient(a, b)
  }
}

/** base64Encode and base64Decode (section 4 of RFC 4648). */
module Base64 {
  import opened Bytes

  const PAD: byte := 61
  const AMPERSAND: byte := 38

  /** ch64[v]. */
  function Letter(v: nat): (r: byte)
    requires v < 64
  {
    if v < 26 then 65 + v
    else if v < 52 then 97 + v - 26
    else if v < 62 then 48 + v - 52
    else if v == 62 then 43
    else 47
  }

  /** b64_reverse_table[c]. */
  function Value(c: byte): (r: int)
    ensures -1 <= r < 64
  {
    if 65 <= c <= 90 then c - 65
    else if 97 <= c <= 122 then c - 97 + 26
    else if 48 <= c <= 57 then c - 48 + 52
    else if c == 43 then 62
    else if c == 47 then 63
    else -1
  }

  lemma {:induction false} ValueOfLetter(v: nat)
    requires v < 64
    ensures Value(Letter(v)) == v && Letter(v) != PAD && Letter(v) != AMPERSAND
  {
  }

  // ---- Encoding ----

  /** Three bytes as four numbers of six bits. */
  function Sextets(x: byte, y: byte, z: byte): (r: seq<nat>)
    ensures |r| == 4 && forall i :: 0 <= i < 4 ==> r[i] < 64
  {
    [x / 4, x % 4 * 16 + y / 16, y % 16 * 4 + z / 64, z % 64]
  }

  function Octets(a: nat, b: nat, c: nat, d: nat): (r: seq<byte>)
    requires a < 64 && b < 64 && c < 64 && d < 64
    ensures |r| == 3
  {
    [a * 4 + b / 16, b % 16 * 16 + c / 4, c % 4 * 64 + d]
  }

  lemma {:induction false} OctetsOfSextets(x: byte, y: byte, z: byte)
    ensures var r := Sextets(x, y, z);
            Octets(r[0], r[1], r[2], r[3]) == [x, y, z]
  {
    var b, c := x % 4 * 16 + y / 16, y % 16 * 4 + z / 64;
    assert b / 16 == x % 4 && b % 16 == y / 16;
    assert c / 4 == y % 16 && c % 4 == z / 64;
  }

  function Letters(r: seq<nat>): (l: seq<byte>)
    requires |r| == 4 && forall i :: 0 <= i < 4 ==> r[i] < 64
    ensures |l| == 4
  {
    [Letter(r[0]), Letter(r[1]), Letter(r[2]), Letter(r[3])]
  }

  /** The first g groups of three. */
  function Whole(s: seq<byte>, g: nat): (r: seq<byte>)
    requires 3 * g <= |s|
    ensures |r| == 4 * g
  {
    if g == 0 then [] else Whole(s, g - 1) + Letters(Sextets(s[3 * g - 3], s[3 * g - 2], s[3 * g - 1]))
  }

  /** What the bytes after the last whole group become. */
  function Tail(s: seq<byte>): (r: seq<byte>)
    ensures |r| == if |s| % 3 == 0 then 0 else 4
  {
    var i := |s| - |s| % 3;
    if |s| % 3 == 1 then Letters(Sextets(s[i], 0, 0))[..2] + [PAD, PAD]
    else if |s| % 3 == 2 then Letters(Sextets(s[i], s[i + 1], 0))[..3] + [PAD]
    else []
  }

  function Encoded(s: seq<byte>): (r: seq<byte>)
    ensures |r| == 4 * Groups(|s|)
  {
    Whole(s, |s| / 3) + Tail(s)
  }

  /** Groups of three, the last one possibly short. */
  function Groups(n: nat): nat {
    if n % 3 == 0 then n / 3 else n / 3 + 1
  }

  /** dst[0..3] of one whole group. */
  method EncodeGroup(dst: array<byte>, at: nat, x: byte, y: byte, z: byte)
    requires at + 4 <= dst.Length
    modifies dst
    ensures dst[..at + 4] == old(dst[..at]) + Letters(Sextets(x, y, z))
  {
    dst[at] := Letter(x / 4);
    dst[at + 1] := Letter(x % 4 * 16 + y / 16);
    dst[at + 2] := Letter(y % 16 * 4 + z / 64);
    dst[at + 3] := Letter(z % 64);
    assert dst[..at] == old(dst[..at]);
  }

  method EncodeTail(dst: array<byte>, at: nat, s: seq<byte>)
    requires at + 4 <= dst.Length && |s| % 3 != 0
    modifies dst
    ensures dst[..at + 4] == old(dst[..at]) + Tail(s)
  {
    var i := |s| - |s| % 3;
    dst[at] := Letter(s[i] / 4);
    if |s| % 3 > 1 {
      dst[at + 1] := Letter(s[i] % 4 * 16 + s[i + 1] / 16);
      dst[at + 2] := Letter(s[i + 1] % 16 * 4);
    } else {
      dst[at + 1] := Letter(s[i] % 4 * 16);
      dst[at + 2] := PAD;
    }
    dst[at + 3] := PAD;
    assert dst[..at] == old(dst[..at]);
  }

  method Base64Encode(s: seq<byte>) returns (ret: seq<byte>)
    ensures ret == Encoded(s)
  {
    var n := |s|;
    var buflen := if n % 3 != 0 then n + 3 - n % 3 else n;
    var dst := new byte[buflen * 4 / 3];
    var i, k := 0, 0;
    while i <= n - 3
      invariant 0 <= i <= n && i == 3 * k && 4 * k <= dst.Length
      invariant dst[..4 * k] == Whole(s, k)
    {
      EncodeGroup(dst, 4 * k, s[i], s[i + 1], s[i + 2]);
      i, k := i + 3, k + 1;
    }
    assert k == n / 3;
    if n % 3 != 0 {
      EncodeTail(dst, 4 * k, s);
      k := k + 1;
    }
    assert dst[..4 * k] == dst[..];
    ret := dst[..];
  }

  // ---- Decoding ----

  /** The decoder's state: the output so far, pandcnt, and whether it goes on. */
  datatype Progress = Progress(out: seq<byte>, pad: nat, ok: bool)

  /** One round of the decoder's loop. The pad count outlives its group. */
  function Step(p: Progress, w: byte, x: byte, y: byte, z: byte): Progress {
    var a, b := Value(w), Value(x);
    var c := if y != PAD then Value(y) else 0;
    var pad1 := if y != PAD then p.pad else 2;
    var d := if pad1 == 0 && z != PAD then Value(z) else 0;
    var pad2 := if pad1 == 0 && z == PAD then 1 else pad1;
    if a < 0 || b < 0 || c < 0 || d < 0 then Progress(p.out, pad2, false)
    else Progress(p.out + Octets(a, b, c, d), pad2, true)
  }

  /** After g rounds, or fewer if one of them fails. */
  function After(t: seq<byte>, g: nat): (r: Progress)
    requires 4 * g <= |t|
    ensures r.pad <= 2 && (g == 0 ==> r.pad == 0)
    ensures r.ok ==> |r.out| == 3 * g
  {
    if g == 0 then Progress([], 0, true)
    else
      var p := After(t, g - 1);
      if p.ok then Step(p, t[4 * g - 4], t[4 * g - 3], t[4 * g - 2], t[4 * g - 1]) else p
  }

  /** ret.resize(j - pandcnt); a group that fails leaves the pads alone. */
  function Finished(p: Progress): seq<byte>
    requires p.ok ==> p.pad <= |p.out|
  {
    if p.ok then p.out[..|p.out| - p.pad] else p.out
  }

  function Decoded(t: seq<byte>): seq<byte> {
    Finished(After(t, |t| / 4))
  }

  lemma {:induction false} DecodedAfter(t: seq<byte>, g: nat)
    requires 4 * g <= |t| < 4 * g + 4
    ensures Decoded(t) == Finished(After(t, g))
  {
  }

  /** The four values of a group, and the new pad count. */
  method ReadGroup(w: byte, x: byte, y: byte, z: byte, pandcnt: nat, ghost out: seq<byte>)
      returns (a: int, b: int, c: int, d: int, pad: nat)
    ensures a < 64 && b < 64 && c < 64 && d < 64
    ensures Step(Progress(out, pandcnt, true), w, x, y, z) ==
              if a < 0 || b < 0 || c < 0 || d < 0 then Progress(out, pad, false)
              else Progress(out + Octets(a, b, c, d), pad, true)
  {
    a, b, c, d, pad := Value(w), Value(x), 0, 0, pandcnt;
    if y != PAD {
      c := Value(y);
    } else {
      pad := 2;
    }
    if pad == 0 {
      if z != PAD {
        d := Value(z);
      } else {
        pad := 1;
      }
    }
  }

  /** One round: reads a group and, unless that fails, stores three bytes. */
  method DecodeGroup(dst: array<byte>, s: seq<byte>, g: nat, pandcnt: nat) returns (pad: nat, ok: bool)
    requires 4 * g + 4 <= |s| && 3 * g + 3 <= dst.Length
    requires After(s, g) == Progress(dst[..3 * g], pandcnt, true)
    modifies dst
    ensures After(s, g + 1) == Progress(dst[..if ok then 3 * g + 3 else 3 * g], pad, ok)
  {
    var i, j := 4 * g, 3 * g;
    var a, b, c, d;
    ghost var before := Progress(dst[..j], pandcnt, true);
    a, b, c, d, pad := ReadGroup(s[i], s[i + 1], s[i + 2], s[i + 3], pandcnt, before.out);
    AfterNext(s, g, before);
    ok := !(a < 0 || b < 0 || c < 0 || d < 0);
    if ok {
      Store(dst, j, Octets(a, b, c, d));
      assert dst[..j + 3] == before.out + Octets(a, b, c, d);
    }
  }

  lemma {:induction false} GroupFits(l: nat, g: nat)
    requires 4 * g + 4 <= l
    ensures g + 1 <= (l - l % 4) / 4 && 3 * g + 3 <= 3 * ((l - l % 4) / 4)
  {
    var n := (l - l % 4) / 4;
    assert l == 4 * n + l % 4;
  }

  method Base64Decode(s: seq<byte>) returns (ret: seq<byte>)
    ensures ret == Decoded(s)
  {
    var l, n := |s|, |s| - |s| % 4;
    var dst := new byte[n / 4 * 3];
    var g, pandcnt, ok := 0, 0, true;
    ghost var all := n / 4;
    assert dst.Length == 3 * all && n == 4 * all;
    while 4 * g <= l - 4
      invariant g <= all
      invariant After(s, g) == Progress(dst[..3 * g], pandcnt, true)
    {
      GroupFits(l, g);
      pandcnt, ok := DecodeGroup(dst, s, g, pandcnt);
      if !ok {
        FailsForGood(s, g + 1, all);
        DecodedAfter(s, all);
        return dst[..3 * g];
      }
      g := g + 1;
    }
    DecodedAfter(s, g);
    ret := dst[..3 * g - pandcnt];
    assert dst[..3 * g][..3 * g - pandcnt] == ret;
  }

  lemma {:induction false} AfterNext(t: seq<byte>, g: nat, p: Progress)
    requires 4 * g + 4 <= |t| && After(t, g) == p && p.ok
    ensures After(t, g + 1) == Step(p, t[4 * g], t[4 * g + 1], t[4 * g + 2], t[4 * g + 3])
  {
  }

  lemma {:induction false} FailsForGood(t: seq<byte>, g: nat, h: nat)
    requires g <= h && 4 * h <= |t| && !After(t, g).ok
    ensures After(t, h) == After(t, g)
  {
    if g < h {
      FailsForGood(t, g, h - 1);
    }
  }

  // ---- Round trip ----

  lemma {:induction false} StepUndoesGroup(p: Progress, x: byte, y: byte, z: byte)
    requires p.ok && p.pad == 0
    ensures var r := Letters(Sextets(x, y, z));
            Step(p, r[0], r[1], r[2], r[3]) == Progress(p.out + [x, y, z], 0, true)
  {
    var r := Sextets(x, y, z);
    ValueOfLetter(r[0]);
    ValueOfLetter(r[1]);
    ValueOfLetter(r[2]);
    ValueOfLetter(r[3]);
    OctetsOfSextets(x, y, z);
  }

  /** The letters of the bytes from 3k on. */
  function GroupAt(s: seq<byte>, k: nat): seq<byte>
    requires 3 * k + 3 <= |s|
  {
    Letters(Sextets(s[3 * k], s[3 * k + 1], s[3 * k + 2]))
  }

  lemma {:induction false} AfterWhole(s: seq<byte>, t: seq<byte>, g: nat)
    requires 3 * g <= |s| && Whole(s, g) <= t
    ensures After(t, g) == Progress(s[..3 * g], 0, true)
  {
    if g > 0 {
      var k := g - 1;
      var r := GroupAt(s, k);
      assert Whole(s, g) == Whole(s, k) + r;
      LastGroup(Whole(s, k), r, t);
      AfterWhole(s, t, k);
      AfterGroup(s, t, k, r);
    }
  }

  lemma {:induction false} AfterGroup(s: seq<byte>, t: seq<byte>, g: nat, r: seq<byte>)
    requires 3 * g + 3 <= |s| && 4 * g + 4 <= |t| && After(t, g) == Progress(s[..3 * g], 0, true)
    requires r == GroupAt(s, g)
    requires t[4 * g] == r[0] && t[4 * g + 1] == r[1] && t[4 * g + 2] == r[2] && t[4 * g + 3] == r[3]
    ensures After(t, g + 1) == Progress(s[..3 * g + 3], 0, true)
  {
    var p := After(t, g);
    AfterNext(t, g, p);
    StepUndoesGroup(p, s[3 * g], s[3 * g + 1], s[3 * g + 2]);
    ThreeMore(s, 3 * g);
  }

  lemma {:induction false} ThreeMore(s: seq<byte>, k: nat)
    requires k + 3 <= |s|
    ensures s[..k + 3] == s[..k] + [s[k], s[k + 1], s[k + 2]]
  {
  }

  lemma {:induction false} LastGroup(w: seq<byte>, r: seq<byte>, t: seq<byte>)
    requires |r| == 4 && w + r <= t
    ensures w <= t
    ensures var k := |w|; t[k] == r[0] && t[k + 1] == r[1] && t[k + 2] == r[2] && t[k + 3] == r[3]
  {
    var k := |w|;
    assert (w + r)[k] == r[0] && (w + r)[k + 1] == r[1] && (w + r)[k + 2] == r[2] && (w + r)[k + 3] == r[3];
  }

  lemma {:induction false} StepUndoesTail(p: Progress, s: seq<byte>)
    requires p.ok && p.pad == 0 && |s| % 3 != 0 && p.out == s[..|s| - |s| % 3]
    ensures var r := Tail(s);
            var q := Step(p, r[0], r[1], r[2], r[3]);
            q.ok && q.pad <= |q.out| && Finished(q) == s
  {
    var i := |s| - |s| % 3;
    var y := if |s| % 3 == 1 then 0 else s[i + 1];
    var r := Sextets(s[i], y, 0);
    OctetsOfSextets(s[i], y, 0);
    ValueOfLetter(r[0]);
    ValueOfLetter(r[1]);
    ValueOfLetter(r[2]);
    if |s| % 3 == 1 {
      assert s == s[..i] + [s[i]];
    } else {
      assert s == s[..i] + [s[i], s[i + 1]];
    }
  }

  /** Decoding undoes encoding, for every byte string. */
  lemma {:induction false} DecodeUndoesEncode(s: seq<byte>)
    ensures Decoded(Encoded(s)) == s
  {
    var t := Encoded(s);
    var g := |s| / 3;
    AfterWhole(s, t, g);
    if |s| % 3 == 0 {
      DecodedAfter(t, g);
      assert s[..3 * g] == s;
    } else {
      LastGroup(Whole(s, g), Tail(s), t);
      AfterTail(s, t, g, Tail(s));
    }
  }

  lemma {:induction false} AfterTail(s: seq<byte>, t: seq<byte>, g: nat, r: seq<byte>)
    requires |s| % 3 != 0 && 3 * g == |s| - |s| % 3 && |t| == 4 * (g + 1) && r == Tail(s)
    requires After(t, g) == Progress(s[..3 * g], 0, true)
    requires t[4 * g] == r[0] && t[4 * g + 1] == r[1] && t[4 * g + 2] == r[2] && t[4 * g + 3] == r[3]
    ensures Decoded(t) == s
  {
    var p := After(t, g);
    StepUndoesTail(p, s);
    AfterNext(t, g, p);
    DecodedAfter(t, g + 1);
  }

  lemma {:induction false} EncodeIsInjective(s: seq<byte>, t: seq<byte>)
    requires Encoded(s) == Encoded(t)
    ensures s == t
  {
    DecodeUndoesEncode(s);
    DecodeUndoesEncode(t);
  }

  /** Encoded text never holds the separator of the strings it is put into. */
  lemma {:induction false} NoAmpersand(s: seq<byte>)
    ensures AMPERSAND !in Encoded(s)
  {
    NoAmpersandInWhole(s, |s| / 3);
    if |s| % 3 != 0 {
      var i := |s| - |s| % 3;
      NoAmpersandInLetters(Sextets(s[i], if |s| % 3 == 1 then 0 else s[i + 1], 0));
    }
  }

  lemma {:induction false} NoAmpersandInLetters(r: seq<nat>)
    requires |r| == 4 && forall i :: 0 <= i < 4 ==> r[i] < 64
    ensures AMPERSAND !in Letters(r)
  {
    ValueOfLetter(r[0]);
    ValueOfLetter(r[1]);
    ValueOfLetter(r[2]);
    ValueOfLetter(r[3]);
  }

  lemma {:induction false} NoAmpersandInWhole(s: seq<byte>, g: nat)
    requires 3 * g <= |s|
    ensures AMPERSAND !in Whole(s, g)
  {
    if g > 0 {
      NoAmpersandInWhole(s, g - 1);
      NoAmpersandInLetters(Sextets(s[3 * g - 3], s[3 * g - 2], s[3 * g - 1]));
    }
  }

  /** The pad count outlives its group: after a pad character further groups
      still count, but their last characters do not. */
  lemma {:induction false} PadOutlivesGroup(t: seq<byte>, g: nat, h: nat)
    requires g <= h && 4 * h <= |t| && After(t, g).pad > 0 && After(t, h).ok
    ensures After(t, h).pad > 0
  {
    if g < h {
      PadOutlivesGroup(t, g, h - 1);
    }
  }
}

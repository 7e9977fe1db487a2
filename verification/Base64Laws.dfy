/** What base64 text looks like (section 4 of RFC 4648), letter by letter and bit
    by bit, and what the decoder makes of text that is none. */
module Base64Laws {
  import opened Bytes
  import opened Base64
  import opened CipherModes
  import ModeLaws

  /** The alphabet: capitals, small letters, digits, plus and slash. */
  lemma {:induction false} LettersAreAlphabet(v: nat)
    requires v < 64
    ensures v < 26 ==> Letter(v) == 'A' as int + v
    ensures 26 <= v < 52 ==> Letter(v) == 'a' as int + (v - 26)
    ensures 52 <= v < 62 ==> Letter(v) == '0' as int + (v - 52)
    ensures v == 62 ==> Letter(v) == '+' as int
    ensures v == 63 ==> Letter(v) == '/' as int
    ensures PAD == '=' as int
  {
  }

  /** Everything else has no value. */
  lemma {:induction false} OthersHaveNoValue(c: byte)
    ensures Value(c) >= 0 <==> exists v: nat :: v < 64 && Letter(v) == c
    ensures Value(c) >= 0 ==> Letter(Value(c)) == c
  {
    if Value(c) >= 0 {
      assert Letter(Value(c)) == c;
    } else if v: nat :| v < 64 && Letter(v) == c {
      ValueOfLetter(v);
    }
  }

  // ---- Encoding ----

  /** Bit n of the message, with zeros behind it. */
  function BitAt(s: seq<byte>, n: nat): Bit {
    if n < 8 * |s| then Bits(s)[n] else 0
  }

  /** The number that `count` bits from n on make up. */
  function FromBits(s: seq<byte>, n: nat, count: nat): (r: nat)
    ensures r < Power(count)
  {
    if count == 0 then 0 else 2 * FromBits(s, n, count - 1) + BitAt(s, n + count - 1)
  }

  lemma {:induction false} Joins(s: seq<byte>, n: nat, a: nat, m: nat, b: nat, t: nat)
    requires m == n + a && t == a + b
    ensures FromBits(s, n, t) == FromBits(s, n, a) * Power(b) + FromBits(s, m, b)
  {
    if b > 0 {
      Joins(s, n, a, m, b - 1, t - 1);
      Doubled(FromBits(s, n, a), Power(b - 1), Power(b), FromBits(s, m, b - 1), BitAt(s, m + b - 1));
      assert n + t - 1 == m + b - 1;
    }
  }

  lemma {:induction false} Doubled(x: nat, p: nat, q: nat, y: nat, c: nat)
    requires q == 2 * p
    ensures 2 * (x * p + y) + c == x * q + (2 * y + c)
  {
  }

  /** Byte i, or zero behind the end. */
  function ByteAt(s: seq<byte>, i: nat): byte {
    if i < |s| then s[i] else 0
  }

  lemma {:induction false} BitOfZero(j: nat)
    requires j < 8
    ensures BitOf(0, j) == 0
  {
    ModeLaws.ByteIsItsBits(0);
  }

  lemma {:induction false} BitInByte(s: seq<byte>, i: nat, j: nat)
    requires j < 8
    ensures BitAt(s, 8 * i + j) == BitOf(ByteAt(s, i), j)
  {
    if i < |s| {
      ModeLaws.BitsInOrder(s, i, j);
    } else {
      BitOfZero(j);
    }
  }

  /** The first j bits of byte i. */
  lemma {:induction false} FirstBits(s: seq<byte>, i: nat, j: nat)
    requires j <= 8
    ensures FromBits(s, 8 * i, j) == Right(ByteAt(s, i), 8 - j)
  {
    var x := ByteAt(s, i);
    if j == 0 {
      TopBit(x);
    } else {
      FirstBits(s, i, j - 1);
      BitInByte(s, i, j - 1);
    }
  }

  /** A byte cut into its first a bits and its last b. */
  lemma {:induction false} Cut(s: seq<byte>, i: nat, n: nat, a: nat, m: nat, b: nat, p: nat)
    requires n == 8 * i && a + b == 8 && m == n + a
    requires p == Power(b) && p in {4, 16, 64}
    ensures FromBits(s, n, a) == ByteAt(s, i) / p && FromBits(s, m, b) == ByteAt(s, i) % p
  {
    FirstBits(s, i, 8);
    Joins(s, n, a, m, b, 8);
    Division(ByteAt(s, i), FromBits(s, n, a), p, FromBits(s, m, b));
  }

  lemma {:induction false} Division(x: nat, q: nat, p: nat, r: nat)
    requires p in {4, 16, 64} && r < p && x == q * p + r
    ensures x / p == q && x % p == r
  {
    if p == 4 {
    } else if p == 16 {
    } else {
    }
  }

  /** The four numbers of group g. */
  function SextetsAt(s: seq<byte>, g: nat): (r: seq<nat>)
    ensures |r| == 4 && forall i :: 0 <= i < 4 ==> r[i] < 64
  {
    Sextets(ByteAt(s, 3 * g), ByteAt(s, 3 * g + 1), ByteAt(s, 3 * g + 2))
  }

  lemma {:induction false} FirstSextets(s: seq<byte>, g: nat, n: nat)
    requires n == 24 * g
    ensures SextetsAt(s, g)[0] == FromBits(s, n, 6) && SextetsAt(s, g)[1] == FromBits(s, n + 6, 6)
  {
    var i := 3 * g;
    Cut(s, i, n, 6, n + 6, 2, 4);
    Cut(s, i + 1, n + 8, 4, n + 12, 4, 16);
    Joins(s, n + 6, 2, n + 8, 4, 6);
  }

  lemma {:induction false} LastSextets(s: seq<byte>, g: nat, n: nat)
    requires n == 24 * g
    ensures SextetsAt(s, g)[2] == FromBits(s, n + 12, 6) && SextetsAt(s, g)[3] == FromBits(s, n + 18, 6)
  {
    var i := 3 * g;
    assert Power(6) == 4 * Power(4) == 64;
    Cut(s, i + 1, n + 8, 4, n + 12, 4, 16);
    Cut(s, i + 2, n + 16, 2, n + 18, 6, 64);
    Joins(s, n + 12, 4, n + 16, 2, 6);
  }

  lemma {:induction false} WholeAt(s: seq<byte>, g: nat, k: nat)
    requires 3 * g <= |s| && k < 4 * g
    ensures Whole(s, g)[k] == Letter(SextetsAt(s, k / 4)[k % 4])
  {
    if k < 4 * (g - 1) {
      WholeAt(s, g - 1, k);
    } else {
      assert k / 4 == g - 1;
    }
  }

  lemma {:induction false} TailAt(s: seq<byte>, j: nat)
    requires |s| % 3 != 0 && j < 4
    ensures Tail(s)[j] == if j <= |s| % 3 then Letter(SextetsAt(s, |s| / 3)[j]) else PAD
  {
    assert |s| - |s| % 3 == 3 * (|s| / 3);
  }

  lemma {:induction false} SextetAt(s: seq<byte>, g: nat, j: nat, n: nat)
    requires j < 4 && n == 24 * g + 6 * j
    ensures SextetsAt(s, g)[j] == FromBits(s, n, 6)
  {
    FirstSextets(s, g, 24 * g);
    LastSextets(s, g, 24 * g);
  }

  /** Letter k stands for the six bits from 6k on of the message followed by
      zeros, as far as the message goes; pads make up whole groups of four. */
  lemma {:induction false} LetterSaysSixBits(s: seq<byte>, k: nat)
    requires k < |Encoded(s)|
    ensures FromBits(s, 6 * k, 6) < 64
    ensures Encoded(s)[k] == if 6 * k < 8 * |s| then Letter(FromBits(s, 6 * k, 6)) else PAD
  {
    var g := |s| / 3;
    SextetAt(s, k / 4, k % 4, 6 * k);
    if k < 4 * g {
      WholeAt(s, g, k);
    } else {
      TailAt(s, k - 4 * g);
      assert k / 4 == g && k % 4 == k - 4 * g;
    }
  }

  /** Four letters for every three bytes begun. */
  lemma {:induction false} EncodedLength(s: seq<byte>) returns (k: nat)
    ensures |Encoded(s)| == 4 * k && 3 * k - 3 < |s| <= 3 * k
  {
    k := Groups(|s|);
    assert |s| == 3 * (|s| / 3) + |s| % 3;
  }

  // ---- Decoding other text ----

  /** A group that cannot be read: a character that is no letter, unless it is a
      pad, or follows one, in the last two places. */
  predicate BadGroup(w: byte, x: byte, y: byte, z: byte) {
    || Value(w) < 0 || Value(x) < 0
    || (y != PAD && (Value(y) < 0 || (z != PAD && Value(z) < 0)))
  }

  lemma {:induction false} BadGroupFails(t: seq<byte>, g: nat, a: seq<byte>)
    requires 4 * g + 4 <= |t| && After(t, g) == Progress(a, 0, true)
    requires BadGroup(t[4 * g], t[4 * g + 1], t[4 * g + 2], t[4 * g + 3])
    ensures After(t, g + 1).out == a && !After(t, g + 1).ok
  {
    AfterNext(t, g, Progress(a, 0, true));
  }

  /** The decoder's state behind whole groups. */
  lemma {:induction false} AfterEncoded(a: seq<byte>, rest: seq<byte>)
    requires |a| % 3 == 0
    ensures var g := |a| / 3; |Encoded(a)| == 4 * g && After(Encoded(a) + rest, g) == Progress(a, 0, true)
  {
    var g := |a| / 3;
    assert Whole(a, g) == Encoded(a);
    AfterWhole(a, Encoded(a) + rest, g);
    assert a[..3 * g] == a;
  }

  /** Decoding ends at the first bad group, whatever follows. */
  lemma {:induction false} BadGroupEnds(a: seq<byte>, rest: seq<byte>)
    requires |a| % 3 == 0 && |rest| >= 4 && BadGroup(rest[0], rest[1], rest[2], rest[3])
    ensures Decoded(Encoded(a) + rest) == a
  {
    var t, g := Encoded(a) + rest, |a| / 3;
    AfterEncoded(a, rest);
    BadGroupFails(t, g, a);
    FailsForGood(t, g + 1, |t| / 4);
  }

  /** Up to three characters behind whole groups are not looked at. */
  lemma {:induction false} ShortRestIgnored(a: seq<byte>, rest: seq<byte>)
    requires |a| % 3 == 0 && |rest| < 4
    ensures Decoded(Encoded(a) + rest) == a
  {
    AfterEncoded(a, rest);
    DecodedAfter(Encoded(a) + rest, |a| / 3);
  }
}

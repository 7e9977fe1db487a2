/** Modes of operation of a block cipher, as functions on whole messages: ECB,
    CBC and 1-bit CFB (sections 6.1 to 6.3 of NIST SP 800-38A), padding to
    whole blocks, and the laws that connect the two directions. The block
    cipher itself is any pair of functions of which one undoes the other. */
module CipherModes {
  import opened Bytes

  type Block = s: seq<byte> | |s| == 16 witness [0, 0, 0, 0, 0, 0, 0, 0, 0, 0, 0, 0, 0, 0, 0, 0]

  /** dec undoes enc on every block: enc is a permutation. */
  ghost predicate Undoes(dec: Block -> Block, enc: Block -> Block) {
    forall b: Block :: dec(enc(b)) == b
  }

  // ---- Exclusive or ----

  /** x ^ y on n bits. */
  function XorBits(x: nat, y: nat, n: nat): nat {
    if n == 0 then 0 else (x + y) % 2 + 2 * XorBits(x / 2, y / 2, n - 1)
  }

  function Power(n: nat): (r: nat)
    ensures r > 0
  {
    if n == 0 then 1 else 2 * Power(n - 1)
  }

  lemma {:induction false} XorUndone(x: nat, y: nat, n: nat)
    requires x < Power(n)
    ensures XorBits(XorBits(x, y, n), y, n) == x
  {
    if n > 0 {
      var w := XorBits(x / 2, y / 2, n - 1);
      XorUndone(x / 2, y / 2, n - 1);
      Parity(x, y, w);
    }
  }

  lemma {:induction false} Parity(x: nat, y: nat, w: nat)
    ensures ((x + y) % 2 + 2 * w) / 2 == w
    ensures ((x + y) % 2 + 2 * w + y) % 2 == x % 2
  {
    var a, b := x / 2, y / 2;
    assert x == 2 * a + x % 2 && y == 2 * b + y % 2;
    if x % 2 == y % 2 {
      assert (x + y) % 2 == 0;
    } else {
      assert (x + y) % 2 == 1;
    }
  }

  lemma {:induction false} XorFits(x: nat, y: nat, n: nat)
    ensures XorBits(x, y, n) < Power(n)
  {
    if n > 0 {
      XorFits(x / 2, y / 2, n - 1);
    }
  }

  lemma {:induction false} EightBits()
    ensures Power(8) == 256
  {
    assert Power(4) == 16;
    assert Power(6) == 64;
  }

  function ByteXor(x: byte, y: byte): byte {
    XorFits(x, y, 8);
    EightBits();
    XorBits(x, y, 8)
  }

  lemma {:induction false} ByteXorUndone(x: byte, y: byte)
    ensures ByteXor(ByteXor(x, y), y) == x
  {
    EightBits();
    XorUndone(x, y, 8);
  }

  function Xor(a: Block, b: Block): Block {
    seq(16, i requires 0 <= i < 16 => ByteXor(a[i], b[i]))
  }

  lemma {:induction false} XorTwice(a: Block, b: Block)
    ensures Xor(Xor(a, b), b) == a
  {
    forall i | 0 <= i < 16 ensures Xor(Xor(a, b), b)[i] == a[i] {
      ByteXorUndone(a[i], b[i]);
    }
  }

  // ---- ECB and CBC ----

  /** The k-th block of a message. */
  function BlockAt(s: seq<byte>, k: nat): Block
    requires 16 * k + 16 <= |s|
  {
    s[16 * k..16 * k + 16]
  }

  lemma {:induction false} BlockOfLonger(s: seq<byte>, t: seq<byte>, k: nat)
    requires 16 * k + 16 <= |s| && s <= t
    ensures BlockAt(t, k) == BlockAt(s, k)
  {
  }

  lemma {:induction false} LastBlock(s: seq<byte>, b: Block, k: nat)
    requires |s| == 16 * k
    ensures BlockAt(s + b, k) == b
  {
  }

  lemma {:induction false} BlocksMore(s: seq<byte>, k: nat)
    requires 16 * k + 16 <= |s|
    ensures s[..16 * k] + BlockAt(s, k) == s[..16 * k + 16]
  {
  }

  /** Each of the first n blocks on its own. */
  function Ecb(f: Block -> Block, s: seq<byte>, n: nat): (r: seq<byte>)
    requires 16 * n <= |s|
    ensures |r| == 16 * n
  {
    if n == 0 then [] else Ecb(f, s, n - 1) + f(BlockAt(s, n - 1))
  }

  lemma {:induction false} EcbPrefix(f: Block -> Block, s: seq<byte>, t: seq<byte>, n: nat)
    requires 16 * n <= |s| && s <= t
    ensures Ecb(f, t, n) == Ecb(f, s, n)
  {
    if n > 0 {
      EcbPrefix(f, s, t, n - 1);
      BlockOfLonger(s, t, n - 1);
    }
  }

  /** ECB decryption undoes encryption, for every number of blocks. */
  lemma {:induction false} EcbRoundTrip(enc: Block -> Block, dec: Block -> Block, s: seq<byte>, n: nat)
    requires Undoes(dec, enc) && 16 * n <= |s|
    ensures Ecb(dec, Ecb(enc, s, n), n) == s[..16 * n]
  {
    if n > 0 {
      var c, d := Ecb(enc, s, n), Ecb(enc, s, n - 1);
      EcbRoundTrip(enc, dec, s, n - 1);
      EcbPrefix(dec, d, c, n - 1);
      LastBlock(d, enc(BlockAt(s, n - 1)), n - 1);
      BlocksMore(s, n - 1);
    }
  }

  /** The block that is mixed into block k: the one before it, or the IV. */
  function Previous(iv: Block, c: seq<byte>, k: nat): Block
    requires 16 * k <= |c|
  {
    if k == 0 then iv else BlockAt(c, k - 1)
  }

  function CbcEncrypted(enc: Block -> Block, iv: Block, s: seq<byte>, n: nat): (r: seq<byte>)
    requires 16 * n <= |s|
    ensures |r| == 16 * n
  {
    if n == 0 then []
    else
      var c := CbcEncrypted(enc, iv, s, n - 1);
      c + enc(Xor(BlockAt(s, n - 1), Previous(iv, c, n - 1)))
  }

  function CbcDecrypted(dec: Block -> Block, iv: Block, c: seq<byte>, n: nat): (r: seq<byte>)
    requires 16 * n <= |c|
    ensures |r| == 16 * n
  {
    if n == 0 then []
    else CbcDecrypted(dec, iv, c, n - 1) + Xor(dec(BlockAt(c, n - 1)), Previous(iv, c, n - 1))
  }

  lemma {:induction false} CbcPrefix(dec: Block -> Block, iv: Block, c: seq<byte>, d: seq<byte>, n: nat)
    requires 16 * n <= |c| && c <= d
    ensures CbcDecrypted(dec, iv, d, n) == CbcDecrypted(dec, iv, c, n)
    ensures Previous(iv, d, n) == Previous(iv, c, n)
  {
    if n > 0 {
      BlockOfLonger(c, d, n - 1);
      CbcPrefix(dec, iv, c, d, n - 1);
      assert Previous(iv, d, n - 1) == Previous(iv, c, n - 1);
      assert dec(BlockAt(d, n - 1)) == dec(BlockAt(c, n - 1));
    }
  }

  lemma {:induction false} CbcNext(dec: Block -> Block, iv: Block, c: seq<byte>, e: Block, n: nat, p: Block)
    requires |c| == 16 * n && dec(e) == Xor(p, Previous(iv, c, n))
    ensures CbcDecrypted(dec, iv, c + e, n + 1) == CbcDecrypted(dec, iv, c, n) + p
  {
    CbcPrefix(dec, iv, c, c + e, n);
    LastBlock(c, e, n);
    XorTwice(p, Previous(iv, c, n));
  }

  /** CBC decryption undoes encryption from the same IV, for every number of blocks. */
  lemma {:induction false} CbcRoundTrip(enc: Block -> Block, dec: Block -> Block, iv: Block, s: seq<byte>, n: nat)
    requires Undoes(dec, enc) && 16 * n <= |s|
    ensures CbcDecrypted(dec, iv, CbcEncrypted(enc, iv, s, n), n) == s[..16 * n]
  {
    if n > 0 {
      var k := n - 1;
      var c := CbcEncrypted(enc, iv, s, k);
      var p, q := BlockAt(s, k), Previous(iv, c, k);
      var e := enc(Xor(p, q));
      CbcRoundTrip(enc, dec, iv, s, k);
      assert dec(e) == Xor(p, q);
      CbcNext(dec, iv, c, e, k, p);
      BlocksMore(s, k);
      assert CbcEncrypted(enc, iv, s, n) == c + e;
    }
  }

  // ---- 1-bit CFB ----

  type Bit = b: int | 0 <= b < 2

  /** x >> n. */
  function Right(x: nat, n: nat): nat {
    if n == 0 then x else Right(x, n - 1) / 2
  }

  /** Bit j of a byte, the most significant one first. */
  function BitOf(x: byte, j: nat): Bit
    requires j < 8
  {
    Right(x, 7 - j) % 2
  }

  function Bits(s: seq<byte>): (r: seq<Bit>)
    ensures |r| == 8 * |s|
  {
    seq(8 * |s|, k requires 0 <= k < 8 * |s| => BitOf(s[k / 8], k % 8))
  }

  /** The keystream bit is the first one of the enciphered register. */
  function KeyBit(enc: Block -> Block, iv: Block): Bit {
    enc(iv)[0] / 128
  }

  /** The register one bit to the left, with a new last bit. */
  function Shifted(iv: Block, b: Bit): Block {
    seq(16, t requires 0 <= t < 16 => iv[t] * 2 % 256 + if t < 15 then iv[t + 1] / 128 else b)
  }

  lemma {:induction false} RightTail(x: nat, n: nat)
    requires n > 0
    ensures Right(x, n) == Right(x / 2, n - 1)
  {
    if n > 1 {
      RightTail(x, n - 1);
    }
  }

  lemma {:induction false} XorBit(x: nat, y: nat, n: nat, m: nat)
    requires m < n
    ensures Right(XorBits(x, y, n), m) % 2 == (Right(x, m) + Right(y, m)) % 2
  {
    if m > 0 {
      RightTail(XorBits(x, y, n), m);
      RightTail(x, m);
      RightTail(y, m);
      XorBit(x / 2, y / 2, n - 1, m - 1);
    }
  }

  lemma {:induction false} SumParity(a: nat, b: nat)
    ensures (a + b) % 2 == (a % 2 + b % 2) % 2
  {
  }

  lemma {:induction false} RightOfSum(x: nat, n: nat, m: nat)
    requires n <= m
    ensures Right(x + Power(m), n) == Right(x, n) + Power(m - n)
  {
    if n > 0 {
      RightOfSum(x, n - 1, m);
    }
  }

  lemma {:induction false} TopBit(x: byte)
    ensures Right(x, 7) == x / 128 && BitOf(x, 0) == x / 128
  {
    assert Right(x, 1) == x / 2;
    assert Right(x, 2) == x / 4;
    assert Right(x, 3) == Right(x, 2) / 2 == x / 8;
    assert Right(x, 4) == Right(x, 3) / 2 == x / 16;
    assert Right(x, 5) == Right(x, 4) / 2 == x / 32;
    assert Right(x, 6) == Right(x, 5) / 2 == x / 64;
    assert Right(x, 7) == Right(x, 6) / 2;
  }

  lemma {:induction false} ShiftedByte(x: byte, low: Bit, j: nat)
    requires j < 8
    ensures x * 2 % 256 + low < 256
    ensures BitOf(x * 2 % 256 + low, j) == if j < 7 then BitOf(x, j + 1) else low
  {
    var y := x * 2 % 256 + low;
    assert y == 2 * (x % 128) + low;
    if j < 7 {
      RightTail(y, 7 - j);
      assert y / 2 == x % 128;
      WithoutTopBit(x, 6 - j);
    }
  }

  lemma {:induction false} WithoutTopBit(x: byte, n: nat)
    requires n <= 6
    ensures Right(x % 128, n) % 2 == Right(x, n) % 2
  {
    if x >= 128 {
      EightBits();
      assert Power(8) == 2 * Power(7);
      RightOfSum(x - 128, n, 7);
      Even(Right(x - 128, n), Power(7 - n), Power(6 - n));
      assert x % 128 == x - 128;
    }
  }

  lemma {:induction false} Even(a: nat, b: nat, c: nat)
    requires b == 2 * c
    ensures (a + b) % 2 == a % 2
  {
  }

  /** As bits, the register drops its first bit and takes the new one in last. */
  lemma {:induction false} ShiftedIsShift(iv: Block, b: Bit)
    ensures Bits(Shifted(iv, b)) == Bits(iv)[1..] + [b]
  {
    forall k | 0 <= k < 128 ensures Bits(Shifted(iv, b))[k] == (Bits(iv)[1..] + [b])[k] {
      var t, j := k / 8, k % 8;
      ShiftedByte(iv[t], if t < 15 then iv[t + 1] / 128 else b, j);
      if j == 7 && t < 15 {
        assert (k + 1) / 8 == t + 1 && (k + 1) % 8 == 0;
        TopBit(iv[t + 1]);
      } else if j < 7 {
        assert (k + 1) / 8 == t && (k + 1) % 8 == j + 1;
      }
    }
  }

  lemma {:induction false} SameBits(x: byte, y: byte)
    requires forall j :: 0 <= j < 8 ==> BitOf(x, j) == BitOf(y, j)
    ensures x == y
  {
    TopBit(x);
    TopBit(y);
    SameRight(x, y, 7);
  }

  lemma {:induction false} SameRight(x: byte, y: byte, n: nat)
    requires n <= 7 && Right(x, 7) < 2 && Right(y, 7) < 2
    requires forall j :: 0 <= j < 8 ==> BitOf(x, j) == BitOf(y, j)
    ensures Right(x, 7 - n) == Right(y, 7 - n)
  {
    assert BitOf(x, n) == BitOf(y, n);
    if n > 0 {
      SameRight(x, y, n - 1);
    } else {
      assert Right(x, 7) % 2 == Right(x, 7);
    }
  }

  lemma {:induction false} BitsAreInjective(s: seq<byte>, t: seq<byte>)
    requires Bits(s) == Bits(t)
    ensures s == t
  {
    assert |s| == |t|;
    forall i | 0 <= i < |s| ensures s[i] == t[i] {
      forall j | 0 <= j < 8 ensures BitOf(s[i], j) == BitOf(t[i], j) {
        assert (8 * i + j) / 8 == i && (8 * i + j) % 8 == j;
        assert Bits(s)[8 * i + j] == Bits(t)[8 * i + j];
      }
      SameBits(s[i], t[i]);
    }
  }

  /** The register and the cipher bits after k bits. */
  function CfbEncrypted(enc: Block -> Block, iv: Block, p: seq<Bit>, k: nat): (r: (Block, seq<Bit>))
    requires k <= |p|
    ensures |r.1| == k
  {
    if k == 0 then (iv, [])
    else
      var (reg, c) := CfbEncrypted(enc, iv, p, k - 1);
      var b := (p[k - 1] + KeyBit(enc, reg)) % 2;
      (Shifted(reg, b), c + [b])
  }

  function CfbDecrypted(enc: Block -> Block, iv: Block, c: seq<Bit>, k: nat): (r: (Block, seq<Bit>))
    requires k <= |c|
    ensures |r.1| == k
  {
    if k == 0 then (iv, [])
    else
      var (reg, p) := CfbDecrypted(enc, iv, c, k - 1);
      (Shifted(reg, c[k - 1]), p + [(c[k - 1] + KeyBit(enc, reg)) % 2])
  }

  lemma {:induction false} CfbPrefix(enc: Block -> Block, iv: Block, c: seq<Bit>, d: seq<Bit>, k: nat)
    requires k <= |c| && c <= d
    ensures CfbDecrypted(enc, iv, d, k) == CfbDecrypted(enc, iv, c, k)
  {
    if k > 0 {
      CfbPrefix(enc, iv, c, d, k - 1);
    }
  }

  /** CFB decryption undoes encryption from the same register, for every number
      of bits, and leaves the same register behind. It needs only enc. */
  lemma {:induction false} CfbRoundTrip(enc: Block -> Block, iv: Block, p: seq<Bit>, k: nat)
    requires k <= |p|
    ensures var (reg, c) := CfbEncrypted(enc, iv, p, k);
            CfbDecrypted(enc, iv, c, k) == (reg, p[..k])
  {
    if k > 0 {
      var (reg, c) := CfbEncrypted(enc, iv, p, k - 1);
      var b := (p[k - 1] + KeyBit(enc, reg)) % 2;
      CfbRoundTrip(enc, iv, p, k - 1);
      CfbPrefix(enc, iv, c, c + [b], k - 1);
      assert p[..k] == p[..k - 1] + [p[k - 1]];
      assert (b + KeyBit(enc, reg)) % 2 == p[k - 1];
    }
  }

  // ---- Padding ----

  /** Whole blocks again: n bytes of value n, n from 1 to 16. */
  function Padded(s: seq<byte>): (r: seq<byte>)
    ensures |r| % 16 == 0 && |r| == 16 * (|s| / 16 + 1)
    ensures s <= r
  {
    var n: byte := 16 - |s| % 16;
    s + seq(n, _ => n)
  }

  /** The tests padDecrypt makes on the plain text; ECB takes a pad of 0 for
      good but not one of 16. */
  predicate GoodPad(s: seq<byte>, cbc: bool) {
    && |s| >= 16
    && var n := s[|s| - 1];
    && (if cbc then 0 < n <= 16 else n < 16)
    && forall i :: |s| - n <= i < |s| ==> s[i] == n
  }

  lemma {:induction false} PadComesOff(s: seq<byte>)
    ensures var r := Padded(s);
            && |r| >= 16 && r[|r| - 1] == 16 - |s| % 16
            && r[..|r| - r[|r| - 1]] == s
            && GoodPad(r, true)
            && (GoodPad(r, false) <==> |s| % 16 != 0)
  {
  }

  /** All of a message of n blocks comes back, in both modes. */
  lemma {:induction false} WholeRoundTrip(enc: Block -> Block, dec: Block -> Block, iv: Block, p: seq<byte>, n: nat)
    requires Undoes(dec, enc) && |p| == 16 * n
    ensures Ecb(dec, Ecb(enc, p, n), n) == p
    ensures CbcDecrypted(dec, iv, CbcEncrypted(enc, iv, p, n), n) == p
  {
    EcbRoundTrip(enc, dec, p, n);
    CbcRoundTrip(enc, dec, iv, p, n);
  }
}

/** aesEncrypt and aesDecrypt: the cipher text of a whole or padded message with
    the length of the message behind it. */
module Aes {
  import opened Bytes
  import opened CipherModes
  import Rijndael
  import ModeLaws

  function Enciphered(enc: Block -> Block, s: seq<byte>): seq<byte> {
    var n := |s| / 16;
    if |s| % 16 != 0 then Ecb(enc, Padded(s), n + 1) else Ecb(enc, s, n)
  }

  function AesEncrypted(enc: Block -> Block, s: seq<byte>): seq<byte> {
    Enciphered(enc, s) + Little(|s| % TWO_32)
  }

  /** What aesDecrypt comes to. A text too short for a length is read outside
      its bounds, and resize throws on a negative length. */
  datatype AesResult = Plain(text: seq<byte>) | Failed(code: int) | OutOfBounds | Throws

  const BAD_LENGTH := -10

  /** dst.resize(n) of a zeroed buffer that begins with the text. */
  function Resized(text: seq<byte>, n: nat): seq<byte> {
    if n <= |text| then text[..n] else text + seq(n - |text|, _ => 0)
  }

  /** The deciphered blocks, without a pad if the length asks for one. */
  function Deciphered(dec: Block -> Block, body: seq<byte>, padded: bool): AesResult {
    var p := Ecb(dec, body, |body| / 16);
    if !padded || body == [] then Plain(p)
    else if |body| % 16 != 0 || !GoodPad(p, false) then Failed(Rijndael.BAD_DATA)
    else Plain(p[..|p| - p[|p| - 1]])
  }

  function AesDecrypted(dec: Block -> Block, src: seq<byte>): AesResult {
    if |src| < 4 then OutOfBounds
    else
      var body, orglen := src[..|src| - 4], HostValue(src[|src| - 4..]);
      if orglen > |body| then Failed(BAD_LENGTH)
      else
        var d := Deciphered(dec, body, orglen % 16 != 0);
        if !d.Plain? then d else if orglen < 0 then Throws else Plain(Resized(d.text, orglen))
  }

  method AesEncrypt(src: seq<byte>, enc: Block -> Block, dec: Block -> Block, keymd5: Block)
      returns (ret: int, dst: seq<byte>)
    requires |src| + 16 < TWO_31
    ensures ret >= 0 && dst == AesEncrypted(enc, src)
  {
    var text := Encipher(src, |src| % 16 != 0, enc, dec, keymd5);
    ret := |text|;
    dst := text + Little(|src| % TWO_32);
  }

  method Encipher(src: seq<byte>, partial: bool, enc: Block -> Block, dec: Block -> Block, keymd5: Block)
      returns (text: seq<byte>)
    requires partial == (|src| % 16 != 0)
    ensures text == Enciphered(enc, src)
  {
    var len := |src|;
    var cipher := new Rijndael.Cipher(Rijndael.MODE_ECB, keymd5);
    var key := Rijndael.Key(Rijndael.ToEncrypt, enc, dec);
    var encout := new byte[len + 16 - len % 16];
    assert encout.Length == 16 * (len / 16 + 1);
    var input := Rijndael.BytesOf(src);
    var ret;
    if partial {
      ret := cipher.PadEncrypt(key, input, len, encout);
      assert src[..len] == src;
      assert ret == 16 * (len / 16 + 1);
    } else {
      ret := cipher.BlockEncrypt(key, input, len, encout);
      assert ret == 16 * (len / 16);
    }
    text := encout[..ret];
  }

  method AesDecrypt(src: seq<byte>, enc: Block -> Block, dec: Block -> Block, keymd5: Block)
      returns (result: AesResult)
    requires |src| + 16 < TWO_31
    ensures result == AesDecrypted(dec, src)
  {
    var len := |src|;
    if len < 4 {
      return OutOfBounds;
    }
    var orglen := HostValue(src[len - 4..]);
    if orglen > len - 4 {
      return Failed(BAD_LENGTH);
    }
    var dst, ret := Decipher(src[..len - 4], enc, dec, keymd5, orglen % 16 != 0, len + 16 - len % 16);
    if ret < 0 {
      return Failed(ret);
    }
    if orglen < 0 {
      return Throws;
    }
    result := Plain(dst[..orglen]);
  }

  /** The zeroed buffer with the deciphered text at its front. */
  method Decipher(body: seq<byte>, enc: Block -> Block, dec: Block -> Block, keymd5: Block, padded: bool, size: nat)
      returns (dst: seq<byte>, ret: int)
    requires |body| <= size
    ensures var d := Deciphered(dec, body, padded);
            && (d.Failed? <==> ret < 0) && (d.Failed? ==> ret == d.code)
            && (d.Plain? ==> ret == |d.text| <= size && dst == Resized(d.text, size))
  {
    var cipher := new Rijndael.Cipher(Rijndael.MODE_ECB, keymd5);
    var key := Rijndael.Key(Rijndael.ToDecrypt, enc, dec);
    var input := Rijndael.BytesOf(body);
    var out := new byte[size](_ => 0);
    if padded {
      ret := cipher.PadDecrypt(key, input, |body|, out);
    } else {
      ret := cipher.BlockDecrypt(key, input, |body|, out);
    }
    dst := out[..];
    if ret >= 0 {
      assert dst == out[..ret] + seq(size - ret, _ => 0);
    }
  }

  /** The blocks that are enciphered. */
  function Prepared(s: seq<byte>): (r: seq<byte>)
    ensures |r| % 16 == 0
  {
    if |s| % 16 != 0 then Padded(s) else s
  }

  lemma {:induction false} DecipherUndoes(enc: Block -> Block, dec: Block -> Block, s: seq<byte>, n: nat)
    requires Undoes(dec, enc) && |Prepared(s)| == 16 * n
    ensures Deciphered(dec, Ecb(enc, Prepared(s), n), |s| % 16 != 0) == Plain(s)
  {
    var p := Prepared(s);
    var c := Ecb(enc, p, n);
    EcbRoundTrip(enc, dec, p, n);
    assert |c| / 16 == n && p[..16 * n] == p;
    PadComesOff(s);
  }

  lemma {:induction false} SplitsAtLength(c: seq<byte>, n: nat)
    requires n < TWO_31
    ensures var t := c + Little(n);
            t[..|t| - 4] == c && HostValue(t[|t| - 4..]) == n
  {
    var t := c + Little(n);
    assert t[|t| - 4..] == Little(n);
    LittleRoundTrip(n);
  }

  lemma {:induction false} DecryptsAs(dec: Block -> Block, c: seq<byte>, n: nat, text: seq<byte>)
    requires n < TWO_31 && n <= |c| && Deciphered(dec, c, n % 16 != 0) == Plain(text)
    ensures AesDecrypted(dec, c + Little(n)) == Plain(Resized(text, n))
  {
    SplitsAtLength(c, n);
  }

  /** Decryption gives back every text that encryption can say the length of. */
  lemma {:induction false} AesRoundTrip(enc: Block -> Block, dec: Block -> Block, s: seq<byte>)
    requires Undoes(dec, enc) && |s| < TWO_31
    ensures AesDecrypted(dec, AesEncrypted(enc, s)) == Plain(s)
  {
    var n, c := EnciphersBlocks(enc, s);
    DecipherUndoes(enc, dec, s, n);
    DecryptsAs(dec, c, |s|, s);
    assert Resized(s, |s|) == s;
  }

  lemma {:induction false} EnciphersBlocks(enc: Block -> Block, s: seq<byte>) returns (n: nat, c: seq<byte>)
    requires |s| < TWO_31
    ensures |Prepared(s)| == 16 * n && |s| <= 16 * n
    ensures c == Ecb(enc, Prepared(s), n)
    ensures AesEncrypted(enc, s) == c + Little(|s|)
  {
    n := if |s| % 16 != 0 then |s| / 16 + 1 else |s| / 16;
    c := Ecb(enc, Prepared(s), n);
    assert |s| % TWO_32 == |s|;
  }

  // ---- What the cipher text is, and which ones are refused ----

  /** Every block by itself, of the message or, if that is not whole blocks, of
      the padded one, and the length in four bytes, the lowest first. */
  lemma {:induction false} CipherTextIs(enc: Block -> Block, s: seq<byte>, k: nat) returns (n: nat)
    ensures var c := AesEncrypted(enc, s);
            && |c| == 16 * n + 4 && |s| <= 16 * n < |s| + 16
            && Number(c[16 * n + 3], c[16 * n + 2], c[16 * n + 1], c[16 * n]) == |s| % TWO_32
            && (k < n ==> BlockAt(c, k) == enc(BlockAt(if |s| % 16 == 0 then s else Padded(s), k)))
  {
    var e, l := Enciphered(enc, s), Little(|s| % TWO_32);
    n := if |s| % 16 != 0 then |s| / 16 + 1 else |s| / 16;
    LittleIsLittleEndian(|s| % TWO_32);
    assert (e + l)[16 * n..] == l;
    if k < n {
      ModeLaws.EcbBlock(enc, Prepared(s), n, k);
      BlockOfLonger(e, e + l, k);
    }
  }

  /** The length that the last four bytes say, as an int32. */
  function LengthOf(src: seq<byte>): int
    requires |src| >= 4
  {
    var n := |src|;
    var u := Number(src[n - 1], src[n - 2], src[n - 3], src[n - 4]);
    if u < TWO_31 then u else u - TWO_32
  }

  lemma {:induction false} LengthIs(src: seq<byte>)
    requires |src| >= 4
    ensures HostValue(src[|src| - 4..]) == LengthOf(src)
  {
    var t, n := src[|src| - 4..], |src|;
    assert t[0] == src[n - 4] && t[1] == src[n - 3] && t[2] == src[n - 2] && t[3] == src[n - 1];
  }

  /** Whether the blocks can be taken for a text of length n. */
  predicate Sound(dec: Block -> Block, body: seq<byte>, n: int) {
    n % 16 == 0 || body == [] || (|body| % 16 == 0 && GoodPad(Ecb(dec, body, |body| / 16), false))
  }

  /** What becomes of every text: which are read outside their bounds, which are
      refused with which code, and on which resize throws. */
  lemma {:induction false} OutcomeExactly(dec: Block -> Block, src: seq<byte>)
    ensures AesDecrypted(dec, src) == OutOfBounds <==> |src| < 4
    ensures |src| >= 4 ==>
              var n, body := LengthOf(src), src[..|src| - 4];
              var r := AesDecrypted(dec, src);
              && (r == Failed(BAD_LENGTH) <==> n > |body|)
              && (r == Failed(Rijndael.BAD_DATA) <==> n <= |body| && !Sound(dec, body, n))
              && (r == Throws <==> n < 0 && Sound(dec, body, n))
              && (r.Plain? <==> 0 <= n <= |body| && Sound(dec, body, n))
              && (r.Failed? ==> r.code == BAD_LENGTH || r.code == Rijndael.BAD_DATA)
  {
    if |src| >= 4 {
      LengthIs(src);
    }
  }

  /** A text that comes out has the length the last bytes say: the deciphered
      blocks without their pad, with zeros behind where they are too short. */
  lemma {:induction false} PlainIs(dec: Block -> Block, src: seq<byte>, i: nat) returns (p: seq<byte>, end: nat)
    requires AesDecrypted(dec, src).Plain?
    ensures var text := AesDecrypted(dec, src).text;
            && |src| >= 4 && |text| == LengthOf(src)
            && p == Ecb(dec, src[..|src| - 4], (|src| - 4) / 16)
            && end <= |p|
            && end == (if |text| % 16 == 0 || p == [] then |p| else |p| - p[|p| - 1])
            && (i < |text| ==> text[i] == if i < end then p[i] else 0)
  {
    LengthIs(src);
    var body, n := src[..|src| - 4], LengthOf(src);
    p := Ecb(dec, body, |body| / 16);
    end := |Deciphered(dec, body, n % 16 != 0).text|;
  }
}

/** blockEncrypt, blockDecrypt, padEncrypt and padDecrypt: loops that move over
    the input, write the output buffer, which may be the input's own, and update
    the IV, proved to compute the modes of CipherModes. */
module Rijndael {
  import opened Bytes
  import opened CipherModes

  datatype Direction = ToEncrypt | ToDecrypt

  /** A key schedule: rijndaelEncrypt and rijndaelDecrypt under one key. */
  datatype Key = Key(direction: Direction, enc: Block -> Block, dec: Block -> Block)

  const MODE_ECB: byte := 1
  const MODE_CBC: byte := 2
  const MODE_CFB1: byte := 3

  const BAD_CIPHER_STATE: int := -5
  const BAD_DATA: int := -8

  // ---- Single bits ----

  function AtBit(s: seq<byte>, b: nat): Bit
    requires b < 8 * |s|
  {
    BitOf(s[b / 8], b % 8)
  }

  lemma {:induction false} RightOfZero(m: nat)
    ensures Right(0, m) == 0
  {
    if m > 0 {
      RightOfZero(m - 1);
    }
  }

  lemma {:induction false} SingleBit(v: Bit, q: nat, m: nat)
    ensures Right(v * Power(q), m) % 2 == if m == q then v else 0
  {
    RightOfZero(m);
    if v == 1 {
      if m <= q {
        RightOfSum(0, m, q);
      } else {
        PastSingleBit(q, m);
      }
    }
  }

  lemma {:induction false} PastSingleBit(q: nat, m: nat)
    requires m > q
    ensures Right(Power(q), m) == 0
  {
    if m == q + 1 {
      RightOfZero(q);
      RightOfSum(0, q, q);
    } else {
      PastSingleBit(q, m - 1);
    }
  }

  lemma {:induction false} PowerBelow(q: nat)
    requires q < 8
    ensures Power(q) <= 128
    decreases 8 - q
  {
    if q < 7 {
      PowerBelow(q + 1);
    } else {
      EightBits();
      assert Power(8) == 2 * Power(7);
    }
  }

  /** x ^= (first & 0x80) >> j, where v is the first bit. */
  function Flipped(x: byte, j: nat, v: Bit): byte
    requires j < 8
  {
    PowerBelow(7 - j);
    ByteXor(x, v * Power(7 - j))
  }

  lemma {:induction false} FlippedBit(x: byte, j: nat, v: Bit, m: nat)
    requires j < 8 && m < 8
    ensures BitOf(Flipped(x, j, v), m) == if m == j then (BitOf(x, m) + v) % 2 else BitOf(x, m)
  {
    PowerBelow(7 - j);
    var y := v * Power(7 - j);
    XorBit(x, y, 8, 7 - m);
    SingleBit(v, 7 - j, 7 - m);
    SumParity(Right(x, 7 - m), Right(y, 7 - m));
  }

  // ---- Loops over blocks ----

  /** memcpy(outBuffer, b, 16) for the k-th block. */
  method PutBlock(out: array<byte>, k: nat, b: Block)
    requires 16 * k + 16 <= out.Length
    modifies out
    ensures out[..16 * k + 16] == old(out[..16 * k]) + b
    ensures forall i :: 16 * k + 16 <= i < out.Length ==> out[i] == old(out[i])
  {
    forall i | 0 <= i < 16 {
      out[16 * k + i] := b[i];
    }
    assert out[..16 * k] == old(out[..16 * k]);
  }

  /** The k-th block of the input, when all from there on is as it was. */
  method GetBlock(input: array<byte>, k: nat, ghost src: seq<byte>) returns (b: Block)
    requires 16 * k + 16 <= input.Length == |src| && forall i :: 16 * k <= i < |src| ==> input[i] == src[i]
    ensures b == BlockAt(src, k)
  {
    b := input[16 * k..16 * k + 16];
  }

  method EcbLoop(f: Block -> Block, input: array<byte>, numBlocks: nat, out: array<byte>)
    requires 16 * numBlocks <= input.Length && 16 * numBlocks <= out.Length
    modifies out
    ensures out[..16 * numBlocks] == Ecb(f, old(input[..]), numBlocks)
    ensures forall i :: 16 * numBlocks <= i < out.Length ==> out[i] == old(out[i])
  {
    ghost var src := input[..];
    var k := 0;
    while k < numBlocks
      invariant k <= numBlocks
      invariant out[..16 * k] == Ecb(f, src, k)
      invariant forall i :: 16 * k <= i < out.Length ==> out[i] == old(out[i])
      invariant forall i :: 16 * k <= i < input.Length ==> input[i] == src[i]
    {
      var b := GetBlock(input, k, src);
      PutBlock(out, k, f(b));
      k := k + 1;
    }
  }

  /** Done are the first k blocks of CBC, and iv is what the next one is mixed with. */
  ghost predicate Chained(enc: Block -> Block, cipherIv: Block, src: seq<byte>, k: nat, done: seq<byte>, iv: Block) {
    16 * k <= |src| && done == CbcEncrypted(enc, cipherIv, src, k) && iv == Previous(cipherIv, done, k)
  }

  lemma {:induction false} ChainedNext(enc: Block -> Block, cipherIv: Block, src: seq<byte>, k: nat, done: seq<byte>,
                                       iv: Block, block: Block)
    requires Chained(enc, cipherIv, src, k, done, iv) && 16 * k + 16 <= |src|
    requires block == enc(Xor(BlockAt(src, k), iv))
    ensures Chained(enc, cipherIv, src, k + 1, done + block, block)
  {
    LastBlock(done, block, k);
  }

  /** The IV in use moves to the block just written; cipher->IV stays. */
  method CbcEncryptLoop(enc: Block -> Block, cipherIv: Block, input: array<byte>, numBlocks: nat, out: array<byte>)
      returns (iv: Block)
    requires 16 * numBlocks <= input.Length && 16 * numBlocks <= out.Length
    modifies out
    ensures Chained(enc, cipherIv, old(input[..]), numBlocks, out[..16 * numBlocks], iv)
    ensures forall i :: 16 * numBlocks <= i < out.Length ==> out[i] == old(out[i])
  {
    ghost var src := input[..];
    var k := 0;
    iv := cipherIv;
    while k < numBlocks
      invariant k <= numBlocks
      invariant Chained(enc, cipherIv, src, k, out[..16 * k], iv)
      invariant forall i :: 16 * k <= i < out.Length ==> out[i] == old(out[i])
      invariant forall i :: 16 * k <= i < input.Length ==> input[i] == src[i]
    {
      var b := GetBlock(input, k, src);
      var block := enc(Xor(b, iv));
      ChainedNext(enc, cipherIv, src, k, out[..16 * k], iv, block);
      PutBlock(out, k, block);
      iv := block;
      k := k + 1;
    }
  }

  /** memcpy(cipher->IV, b, 16). */
  method SetIv(iv: array<byte>, b: Block)
    requires iv.Length == 16
    modifies iv
    ensures iv[..] == b
  {
    forall i | 0 <= i < 16 {
      iv[i] := b[i];
    }
  }

  /** The first k blocks deciphered, and what the next one is mixed with. */
  ghost predicate Unchained(dec: Block -> Block, first: Block, src: seq<byte>, k: nat, done: seq<byte>,
                            reg: seq<byte>)
  {
    16 * k <= |src| && done == CbcDecrypted(dec, first, src, k) && reg == Previous(first, src, k)
  }

  lemma {:induction false} UnchainedNext(dec: Block -> Block, first: Block, src: seq<byte>, k: nat, done: seq<byte>,
                                         reg: Block)
    requires Unchained(dec, first, src, k, done, reg) && 16 * k + 16 <= |src|
    ensures Unchained(dec, first, src, k + 1, done + Xor(dec(BlockAt(src, k)), reg), BlockAt(src, k))
  {
  }

  method CbcDecryptLoop(dec: Block -> Block, iv: array<byte>, input: array<byte>, numBlocks: nat, out: array<byte>)
    requires 16 * numBlocks <= input.Length && 16 * numBlocks <= out.Length
    requires iv.Length == 16 && iv != out && iv != input
    modifies iv, out
    ensures Unchained(dec, old(iv[..]), old(input[..]), numBlocks, out[..16 * numBlocks], iv[..])
    ensures forall i :: 16 * numBlocks <= i < out.Length ==> out[i] == old(out[i])
  {
    ghost var src := input[..];
    var k := 0;
    while k < numBlocks
      invariant k <= numBlocks
      invariant Unchained(dec, old(iv[..]), src, k, out[..16 * k], iv[..])
      invariant forall i :: 16 * k <= i < out.Length ==> out[i] == old(out[i])
      invariant forall i :: 16 * k <= i < input.Length ==> input[i] == src[i]
    {
      var b := GetBlock(input, k, src);
      UnchainedNext(dec, old(iv[..]), src, k, out[..16 * k], iv[..]);
      var block := Xor(dec(b), iv[..]);
      SetIv(iv, b);
      PutBlock(out, k, block);
      k := k + 1;
    }
  }

  // ---- Loops over bits ----

  /** The register one bit to the left, byte by byte. */
  method ShiftIn(iv: array<byte>, b: Bit)
    requires iv.Length == 16
    modifies iv
    ensures iv[..] == Shifted(old(iv[..]), b)
  {
    ghost var was := iv[..];
    var t := 0;
    while t < 15
      invariant t <= 15
      invariant forall i :: 0 <= i < t ==> iv[i] == Shifted(was, b)[i]
      invariant forall i :: t <= i < 16 ==> iv[i] == was[i]
    {
      var x: int, y: int := iv[t], iv[t + 1];
      iv[t] := x * 2 % 256 + y / 128;
      t := t + 1;
    }
    var x: int := iv[15];
    iv[15] := x * 2 % 256 + b;
  }

  /** Half-way through a block: the first n bits of `out` are done, those up to
      the end of the block are still the input's. */
  ghost predicate Halfway(out: seq<byte>, done: seq<Bit>, input: seq<byte>, n: nat, end: nat) {
    && |done| == n <= end <= 8 * |out| && end <= 8 * |input|
    && (forall b :: 0 <= b < n ==> AtBit(out, b) == done[b])
    && (forall b :: n <= b < end ==> AtBit(out, b) == AtBit(input, b))
  }

  lemma {:induction false} HalfwayOneMore(out: seq<byte>, done: seq<Bit>, input: seq<byte>, n: nat, end: nat, v: Bit)
    requires Halfway(out, done, input, n, end) && n < end
    ensures var x := Flipped(out[n / 8], n % 8, v);
            && Halfway(out[n / 8 := x], done + [(AtBit(input, n) + v) % 2], input, n + 1, end)
            && BitOf(x, n % 8) == (AtBit(input, n) + v) % 2
  {
    var x := Flipped(out[n / 8], n % 8, v);
    var now := out[n / 8 := x];
    assert AtBit(out, n) == AtBit(input, n);
    forall b | 0 <= b < end ensures AtBit(now, b) == if b == n then (AtBit(out, b) + v) % 2 else AtBit(out, b) {
      if b / 8 == n / 8 {
        FlippedBit(out[n / 8], n % 8, v, b % 8);
      }
    }
    FlippedBit(out[n / 8], n % 8, v, n % 8);
  }

  /** One bit: a keystream bit from the register, which takes in the cipher bit:
      the one just made, or the one read before it is overwritten. */
  method CfbStep(key: Key, encrypting: bool, iv: array<byte>, input: array<byte>, n: nat, out: array<byte>)
    requires iv.Length == 16 && iv != out && iv != input && n / 8 < out.Length && n / 8 < input.Length
    modifies iv, out
    ensures out[..] == old(out[..])[n / 8 := Flipped(old(out[n / 8]), n % 8, KeyBit(key.enc, old(iv[..])))]
    ensures iv[..] == Shifted(old(iv[..]), BitOf(if encrypting then out[n / 8] else old(input[n / 8]), n % 8))
  {
    var v := KeyBit(key.enc, iv[..]);
    if encrypting {
      out[n / 8] := Flipped(out[n / 8], n % 8, v);
      ShiftIn(iv, BitOf(out[n / 8], n % 8));
    } else {
      ShiftIn(iv, BitOf(input[n / 8], n % 8));
      out[n / 8] := Flipped(out[n / 8], n % 8, v);
    }
  }

  /** Register and output after n bits, in either direction. */
  function Cfb(key: Key, encrypting: bool, iv: Block, s: seq<Bit>, n: nat): (r: (Block, seq<Bit>))
    requires n <= |s|
    ensures |r.1| == n
  {
    if encrypting then CfbEncrypted(key.enc, iv, s, n) else CfbDecrypted(key.enc, iv, s, n)
  }

  /** Nothing past bit `end` differs. */
  ghost predicate SameFrom(s: seq<byte>, t: seq<byte>, end: nat) {
    |s| == |t| && forall i :: 0 <= i < |s| && end <= 8 * i ==> s[i] == t[i]
  }

  /** The bits of a message, without saying how they are listed. */
  ghost predicate AreBits(bits: seq<Bit>, s: seq<byte>) {
    |bits| == 8 * |s| && forall n :: 0 <= n < |bits| ==> bits[n] == AtBit(s, n)
  }

  /** The state after n bits of a message whose current block ends at `end`;
      the buffer past that is as it was. */
  ghost predicate CfbAt(key: Key, encrypting: bool, first: Block, bits: seq<Bit>, input: seq<byte>, n: nat, end: nat,
                        reg: seq<byte>, out: seq<byte>, was: seq<byte>)
  {
    && n <= |bits| && SameFrom(out, was, end)
    && reg == Cfb(key, encrypting, first, bits, n).0
    && Halfway(out, Cfb(key, encrypting, first, bits, n).1, input, n, end)
  }

  lemma {:induction false} CfbNext(key: Key, encrypting: bool, first: Block, bits: seq<Bit>, n: nat, reg: Block)
    requires n < |bits| && reg == Cfb(key, encrypting, first, bits, n).0
    ensures var b := (bits[n] + KeyBit(key.enc, reg)) % 2;
            Cfb(key, encrypting, first, bits, n + 1) ==
              (Shifted(reg, if encrypting then b else bits[n]), Cfb(key, encrypting, first, bits, n).1 + [b])
  {
  }

  /** The input holds src, unless the output overwrites it. */
  ghost predicate Intact(input: array<byte>, out: array<byte>, src: seq<byte>)
    reads input
  {
    input.Length == |src| && (input == out || input[..] == src)
  }

  method CfbBit(key: Key, encrypting: bool, iv: array<byte>, input: array<byte>, n: nat, out: array<byte>,
                ghost src: seq<byte>, ghost first: Block, ghost bits: seq<Bit>, ghost end: nat, ghost was: seq<byte>)
    requires iv.Length == 16 && iv != out && iv != input && n < end && AreBits(bits, src) && Intact(input, out, src)
    requires CfbAt(key, encrypting, first, bits, src, n, end, iv[..], out[..], was)
    modifies iv, out
    ensures CfbAt(key, encrypting, first, bits, src, n + 1, end, iv[..], out[..], was) && Intact(input, out, src)
  {
    ghost var reg: Block := iv[..];
    CfbNext(key, encrypting, first, bits, n, reg);
    HalfwayOneMore(out[..], Cfb(key, encrypting, first, bits, n).1, src, n, end, KeyBit(key.enc, reg));
    assert AtBit(out[..], n) == AtBit(src, n);
    CfbStep(key, encrypting, iv, input, n, out);
  }

  /** The bits of one block, which already holds the input. */
  method CfbBlock(key: Key, encrypting: bool, iv: array<byte>, input: array<byte>, start: nat, end: nat,
                  out: array<byte>, ghost src: seq<byte>, ghost first: Block, ghost bits: seq<Bit>,
                  ghost was: seq<byte>)
    requires iv.Length == 16 && iv != out && iv != input && start <= end
    requires AreBits(bits, src) && Intact(input, out, src)
    requires CfbAt(key, encrypting, first, bits, src, start, end, iv[..], out[..], was)
    modifies iv, out
    ensures CfbAt(key, encrypting, first, bits, src, end, end, iv[..], out[..], was) && Intact(input, out, src)
  {
    var n := start;
    while n != end
      invariant n <= end && Intact(input, out, src)
      invariant CfbAt(key, encrypting, first, bits, src, n, end, iv[..], out[..], was)
      decreases end - n
    {
      CfbBit(key, encrypting, iv, input, n, out, src, first, bits, end, was);
      n := n + 1;
    }
  }

  lemma {:induction false} BlockCopied(was: seq<byte>, out: seq<byte>, done: seq<Bit>, input: seq<byte>, block: nat)
    requires Halfway(was, done, input, 128 * block, 128 * block)
    requires 16 * block + 16 <= |input| && 16 * block + 16 <= |out| && |was| == |out|
    requires out[..16 * block + 16] == was[..16 * block] + BlockAt(input, block)
    ensures Halfway(out, done, input, 128 * block, 128 * block + 128)
  {
    forall b | 0 <= b < 128 * block ensures AtBit(out, b) == AtBit(was, b) {
      assert out[..16 * block + 16][b / 8] == was[b / 8];
    }
    forall b | 128 * block <= b < 128 * block + 128 ensures AtBit(out, b) == AtBit(input, b) {
      assert out[..16 * block + 16][b / 8] == BlockAt(input, block)[b / 8 - 16 * block];
    }
  }

  method CfbLoop(key: Key, encrypting: bool, iv: array<byte>, input: array<byte>, numBlocks: nat, out: array<byte>)
    requires iv.Length == 16 && iv != out && iv != input
    requires 16 * numBlocks <= input.Length && 16 * numBlocks <= out.Length
    modifies iv, out
    ensures (iv[..], Bits(out[..16 * numBlocks])) ==
            Cfb(key, encrypting, old(iv[..]), Bits(old(input[..])), 128 * numBlocks)
    ensures forall i :: 16 * numBlocks <= i < out.Length ==> out[i] == old(out[i])
  {
    ghost var src, first, initial := input[..], iv[..], out[..];
    ghost var bits := Bits(src);
    assert AreBits(bits, src);
    var i := 0;
    while i < numBlocks
      invariant i <= numBlocks && Intact(input, out, src)
      invariant CfbAt(key, encrypting, first, bits, src, 128 * i, 128 * i, iv[..], out[..], initial)
    {
      CopyBlock(key, encrypting, first, bits, iv[..], input, i, out, src, initial);
      CfbBlock(key, encrypting, iv, input, 128 * i, 128 * i + 128, out, src, first, bits, initial);
      i := i + 1;
    }
    HalfwayAtEnd(out[..], Cfb(key, encrypting, first, bits, 128 * numBlocks).1, src, 16 * numBlocks,
                 out[..16 * numBlocks]);
  }

  /** memcpy(outBuffer, input, 16) for the k-th block. */
  method CopyBlock(ghost key: Key, ghost encrypting: bool, ghost first: Block, ghost bits: seq<Bit>,
                   ghost reg: seq<byte>, input: array<byte>, k: nat, out: array<byte>, ghost src: seq<byte>,
                   ghost was: seq<byte>)
    requires 16 * k + 16 <= input.Length && 16 * k + 16 <= out.Length && Intact(input, out, src)
    requires CfbAt(key, encrypting, first, bits, src, 128 * k, 128 * k, reg, out[..], was)
    requires input == out ==> was == src
    modifies out
    ensures Intact(input, out, src)
    ensures CfbAt(key, encrypting, first, bits, src, 128 * k, 128 * k + 128, reg, out[..], was)
  {
    ghost var now := out[..];
    assert forall i :: 16 * k <= i < |src| ==> input[i] == input[..][i] == src[i];
    var b := GetBlock(input, k, src);
    PutBlock(out, k, b);
    assert now[..16 * k] == old(out[..16 * k]);
    BlockCopied(now, out[..], Cfb(key, encrypting, first, bits, 128 * k).1, src, k);
  }

  lemma {:induction false} HalfwayAtEnd(out: seq<byte>, done: seq<Bit>, input: seq<byte>, n: nat, front: seq<byte>)
    requires Halfway(out, done, input, 8 * n, 8 * n) && front == out[..n]
    ensures Bits(front) == done
  {
    forall b | 0 <= b < 8 * n ensures Bits(front)[b] == done[b] {
      assert AtBit(out, b) == done[b];
    }
  }

  // ---- Whole messages ----

  lemma {:induction false} CbcEncryptedPrefix(enc: Block -> Block, iv: Block, s: seq<byte>, t: seq<byte>, n: nat)
    requires 16 * n <= |s| && s <= t
    ensures CbcEncrypted(enc, iv, t, n) == CbcEncrypted(enc, iv, s, n)
  {
    if n > 0 {
      CbcEncryptedPrefix(enc, iv, s, t, n - 1);
      BlockOfLonger(s, t, n - 1);
    }
  }

  /** The message is the blocks before the last one and the padded block. */
  lemma {:induction false} PaddedBlocks(s: seq<byte>)
    ensures var n := |s| / 16;
            var k: byte := 16 - |s| % 16;
            && |Padded(s)| == 16 * n + 16
            && BlockAt(Padded(s), n) == s[16 * n..] + seq(k, _ => k)
  {
    var n := |s| / 16;
    var k: byte := 16 - |s| % 16;
    assert s == s[..16 * n] + s[16 * n..];
    assert Padded(s) == s[..16 * n] + (s[16 * n..] + seq(k, _ => k));
  }

  /** cipherInstance: the mode and the IV. */
  class Cipher {
    var mode: byte
    const iv: array<byte>

    constructor (mode: byte, iv: Block)
      ensures this.mode == mode && this.iv.Length == 16 && fresh(this.iv) && this.iv[..] == iv
    {
      this.mode := mode;
      var a := new byte[16];
      this.iv := a;
      new;
      SetIv(this.iv, iv);
    }

    /** Plain text that is not whole blocks is cut off. CBC starts from the IV and
        leaves it alone; CFB moves it. */
    method BlockEncrypt(key: Key, input: array<byte>, inputLen: int, out: array<byte>) returns (ret: int)
      requires iv.Length == 16 && iv != out && iv != input && inputLen <= input.Length && inputLen <= out.Length
      modifies out, iv
      ensures key.direction.ToDecrypt? ==> ret == BAD_CIPHER_STATE
      ensures key.direction.ToEncrypt? && inputLen <= 0 ==> ret == 0
      ensures key.direction.ToEncrypt? && inputLen > 0 ==>
                var n := inputLen / 16;
                && (mode !in {MODE_ECB, MODE_CBC, MODE_CFB1} ==> ret == BAD_CIPHER_STATE)
                && (mode in {MODE_ECB, MODE_CBC, MODE_CFB1} ==> ret == 16 * n)
                && (mode == MODE_ECB ==> out[..16 * n] == Ecb(key.enc, old(input[..]), n))
                && (mode == MODE_CBC ==> out[..16 * n] == CbcEncrypted(key.enc, old(iv[..]), old(input[..]), n))
                && (mode == MODE_CFB1 ==>
                      (iv[..], Bits(out[..16 * n])) ==
                        CfbEncrypted(key.enc, old(iv[..]), Bits(old(input[..])), 128 * n))
      ensures mode != MODE_CFB1 ==> iv[..] == old(iv[..])
      ensures forall i :: 0 <= ret <= i < out.Length ==> out[i] == old(out[i])
    {
      if key.direction.ToDecrypt? {
        return BAD_CIPHER_STATE;
      }
      if inputLen <= 0 {
        return 0;
      }
      var numBlocks := inputLen / 16;
      if mode == MODE_ECB {
        EcbLoop(key.enc, input, numBlocks, out);
      } else if mode == MODE_CBC {
        var _ := CbcEncryptLoop(key.enc, iv[..], input, numBlocks, out);
      } else if mode == MODE_CFB1 {
        CfbLoop(key, true, iv, input, numBlocks, out);
      } else {
        return BAD_CIPHER_STATE;
      }
      ret := 16 * numBlocks;
    }

    /** CFB decrypts with keys of either direction. CBC moves the IV. */
    method BlockDecrypt(key: Key, input: array<byte>, inputLen: int, out: array<byte>) returns (ret: int)
      requires iv.Length == 16 && iv != out && iv != input && inputLen <= input.Length && inputLen <= out.Length
      modifies out, iv
      ensures var bad := mode != MODE_CFB1 && key.direction.ToEncrypt?;
              && (bad ==> ret == BAD_CIPHER_STATE)
              && (!bad && inputLen <= 0 ==> ret == 0)
              && (!bad && inputLen > 0 ==>
                    var n := inputLen / 16;
                    && (mode !in {MODE_ECB, MODE_CBC, MODE_CFB1} ==> ret == BAD_CIPHER_STATE)
                    && (mode in {MODE_ECB, MODE_CBC, MODE_CFB1} ==> ret == 16 * n)
                    && (mode == MODE_ECB ==> out[..16 * n] == Ecb(key.dec, old(input[..]), n))
                    && (mode == MODE_CBC ==>
                          out[..16 * n] == CbcDecrypted(key.dec, old(iv[..]), old(input[..]), n) &&
                          iv[..] == Previous(old(iv[..]), old(input[..]), n))
                    && (mode == MODE_CFB1 ==>
                          (iv[..], Bits(out[..16 * n])) ==
                            CfbDecrypted(key.enc, old(iv[..]), Bits(old(input[..])), 128 * n)))
      ensures mode == MODE_ECB ==> iv[..] == old(iv[..])
      ensures forall i :: 0 <= ret <= i < out.Length ==> out[i] == old(out[i])
    {
      if mode != MODE_CFB1 && key.direction.ToEncrypt? {
        return BAD_CIPHER_STATE;
      }
      if inputLen <= 0 {
        return 0;
      }
      var numBlocks := inputLen / 16;
      if mode == MODE_ECB {
        EcbLoop(key.dec, input, numBlocks, out);
      } else if mode == MODE_CBC {
        CbcDecryptLoop(key.dec, iv, input, numBlocks, out);
      } else if mode == MODE_CFB1 {
        CfbLoop(key, false, iv, input, numBlocks, out);
      } else {
        return BAD_CIPHER_STATE;
      }
      ret := 16 * numBlocks;
    }

    /** The whole padded message, enciphered; CFB is refused. */
    method PadEncrypt(key: Key, input: array<byte>, inputOctets: int, out: array<byte>) returns (ret: int)
      requires iv.Length == 16 && iv != out && iv != input && inputOctets <= input.Length
      requires inputOctets > 0 ==> 16 * (inputOctets / 16 + 1) <= out.Length
      modifies out
      ensures key.direction.ToDecrypt? ==> ret == BAD_CIPHER_STATE
      ensures key.direction.ToEncrypt? && inputOctets <= 0 ==> ret == 0
      ensures key.direction.ToEncrypt? && inputOctets > 0 ==>
                var n := inputOctets / 16 + 1;
                && (mode !in {MODE_ECB, MODE_CBC} ==> ret == BAD_CIPHER_STATE)
                && (mode in {MODE_ECB, MODE_CBC} ==> ret == 16 * n)
                && (mode == MODE_ECB ==> out[..16 * n] == Ecb(key.enc, Padded(old(input[..inputOctets])), n))
                && (mode == MODE_CBC ==>
                      out[..16 * n] == CbcEncrypted(key.enc, iv[..], Padded(old(input[..inputOctets])), n))
      ensures forall i :: 0 <= ret <= i < out.Length ==> out[i] == old(out[i])
    {
      if key.direction.ToDecrypt? {
        return BAD_CIPHER_STATE;
      }
      if inputOctets <= 0 {
        return 0;
      }
      if mode == MODE_ECB {
        PadEcb(key.enc, input, inputOctets, out);
      } else if mode == MODE_CBC {
        PadCbc(key.enc, input, inputOctets, out);
      } else {
        return BAD_CIPHER_STATE;
      }
      ret := 16 * (inputOctets / 16 + 1);
    }

    static method PadEcb(enc: Block -> Block, input: array<byte>, n: nat, out: array<byte>)
      requires n <= input.Length && 16 * (n / 16 + 1) <= out.Length
      modifies out
      ensures out[..16 * (n / 16 + 1)] == Ecb(enc, Padded(old(input[..n])), n / 16 + 1)
      ensures forall i :: 16 * (n / 16 + 1) <= i < out.Length ==> out[i] == old(out[i])
    {
      ghost var src, s := input[..], input[..n];
      var numBlocks := n / 16;
      PaddedBlocks(s);
      EcbLoop(enc, input, numBlocks, out);
      EcbPrefix(enc, s, src, numBlocks);
      EcbPrefix(enc, s, Padded(s), numBlocks);
      var last := ReadLast(input, numBlocks, n, src);
      PutBlock(out, numBlocks, enc(last));
    }

    method PadCbc(enc: Block -> Block, input: array<byte>, n: nat, out: array<byte>)
      requires iv.Length == 16 && iv != out && n <= input.Length && 16 * (n / 16 + 1) <= out.Length
      modifies out
      ensures out[..16 * (n / 16 + 1)] == CbcEncrypted(enc, iv[..], Padded(old(input[..n])), n / 16 + 1)
      ensures forall i :: 16 * (n / 16 + 1) <= i < out.Length ==> out[i] == old(out[i])
    {
      ghost var src, s := input[..], input[..n];
      var numBlocks := n / 16;
      PaddedBlocks(s);
      var prev := CbcEncryptLoop(enc, iv[..], input, numBlocks, out);
      CbcEncryptedPrefix(enc, iv[..], s, src, numBlocks);
      CbcEncryptedPrefix(enc, iv[..], s, Padded(s), numBlocks);
      var last := ReadLast(input, numBlocks, n, src);
      PutBlock(out, numBlocks, enc(Xor(last, prev)));
    }

    /** What is left of the input, with its pad. */
    static method ReadLast(input: array<byte>, k: nat, n: nat, ghost src: seq<byte>) returns (last: Block)
      requires 16 * k <= n < 16 * k + 16 && n <= input.Length == |src|
      requires forall i :: 16 * k <= i < |src| ==> input[i] == src[i]
      ensures var padLen: byte := 16 - n % 16; last == src[..n][16 * k..] + seq(padLen, _ => padLen)
    {
      var padLen: byte := 16 - (n - 16 * k);
      last := input[16 * k..n] + seq(padLen, _ => padLen);
    }

    /** The plain text without its pad, or BAD_DATA when the pad is not right. */
    method PadDecrypt(key: Key, input: array<byte>, inputOctets: int, out: array<byte>) returns (ret: int)
      requires iv.Length == 16 && iv != out && iv != input && inputOctets <= input.Length && inputOctets <= out.Length
      modifies out, iv
      ensures key.direction.ToEncrypt? ==> ret == BAD_CIPHER_STATE
      ensures key.direction.ToDecrypt? && inputOctets <= 0 ==> ret == 0
      ensures key.direction.ToDecrypt? && inputOctets > 0 && inputOctets % 16 != 0 ==> ret == BAD_DATA
      ensures key.direction.ToDecrypt? && inputOctets > 0 && inputOctets % 16 == 0 ==>
                var n := inputOctets / 16;
                && (mode !in {MODE_ECB, MODE_CBC} ==> ret == BAD_CIPHER_STATE)
                && (mode == MODE_ECB ==> Unpadded(Ecb(key.dec, old(input[..]), n), false, ret, out[..]))
                && (mode == MODE_CBC ==>
                      Unpadded(CbcDecrypted(key.dec, old(iv[..]), old(input[..]), n), true, ret, out[..]))
      ensures mode == MODE_ECB ==> iv[..] == old(iv[..])
      ensures forall i :: 0 <= ret <= i < out.Length ==> out[i] == old(out[i])
    {
      if key.direction.ToEncrypt? {
        return BAD_CIPHER_STATE;
      }
      if inputOctets <= 0 {
        return 0;
      }
      if inputOctets % 16 != 0 {
        return BAD_DATA;
      }
      if mode != MODE_ECB && mode != MODE_CBC {
        return BAD_CIPHER_STATE;
      }
      var numBlocks := inputOctets / 16;
      var block := DecryptBlocks(key.dec, input, numBlocks - 1, out);
      ret := TakeLast(block, mode == MODE_CBC, numBlocks - 1, out, out[..16 * (numBlocks - 1)]);
    }

    /** All blocks but the last into the output, and the last one. */
    method DecryptBlocks(dec: Block -> Block, input: array<byte>, before: nat, out: array<byte>)
        returns (block: Block)
      requires iv.Length == 16 && iv != out && iv != input && mode in {MODE_ECB, MODE_CBC}
      requires 16 * before + 16 <= input.Length && 16 * before + 16 <= out.Length
      modifies out, iv
      ensures mode == MODE_ECB ==>
                out[..16 * before] + block == Ecb(dec, old(input[..]), before + 1) && iv[..] == old(iv[..])
      ensures mode == MODE_CBC ==>
                out[..16 * before] + block == CbcDecrypted(dec, old(iv[..]), old(input[..]), before + 1)
      ensures forall i :: 16 * before <= i < out.Length ==> out[i] == old(out[i])
    {
      ghost var src := input[..];
      if mode == MODE_ECB {
        EcbLoop(dec, input, before, out);
        var b := GetBlock(input, before, src);
        block := dec(b);
      } else {
        CbcDecryptLoop(dec, iv, input, before, out);
        var b := GetBlock(input, before, src);
        block := Xor(dec(b), iv[..]);
      }
    }

    /** Tests the pad of the last block and copies what is before it. */
    method TakeLast(block: Block, cbc: bool, before: nat, out: array<byte>, ghost front: seq<byte>) returns (ret: int)
      requires 16 * before + 16 <= out.Length && out[..16 * before] == front
      modifies out
      ensures Unpadded(front + block, cbc, ret, out[..])
      ensures forall i :: 0 <= ret <= i < out.Length ==> out[i] == old(out[i])
    {
      var padLen := block[15];
      assert (front + block)[|front + block| - 1] == padLen;
      if if cbc then padLen <= 0 || padLen > 16 else padLen >= 16 {
        return BAD_DATA;
      }
      var i: int := 16 - padLen;
      while i < 16
        invariant 16 - padLen <= i <= 16
        invariant forall j :: 16 - padLen <= j < i ==> block[j] == padLen
      {
        if block[i] != padLen {
          assert (front + block)[|front| + i] != padLen;
          return BAD_DATA;
        }
        i := i + 1;
      }
      ret := 16 * (before + 1) - padLen;
      assert forall j :: ret <= j < |front| + 16 ==> (front + block)[j] == block[j - |front|];
      var kept := block[..16 - padLen];
      forall j | 0 <= j < |kept| {
        out[16 * before + j] := kept[j];
      }
      assert out[..16 * before] == front;
      assert out[..][..ret] == front + block[..16 - padLen] == (front + block)[..ret];
    }
  }

  /** What padDecrypt returns and writes when the plain text is p. */
  ghost predicate Unpadded(p: seq<byte>, cbc: bool, ret: int, out: seq<byte>) {
    if GoodPad(p, cbc) then
      && ret == |p| - p[|p| - 1]
      && 0 <= ret <= |out| && ret <= |p|
      && out[..ret] == p[..ret]
    else ret == BAD_DATA
  }

  // ---- There and back ----

  /** A buffer with these bytes. */
  method BytesOf(s: seq<byte>) returns (a: array<byte>)
    ensures fresh(a) && a[..] == s
  {
    a := new byte[|s|](i requires 0 <= i < |s| => s[i]);
  }

  method EncryptPadded(mode: byte, iv: Block, key: Key, s: seq<byte>) returns (c: seq<byte>)
    requires key.direction.ToEncrypt? && s != [] && mode in {MODE_ECB, MODE_CBC}
    ensures var n := |s| / 16 + 1;
            && |c| == 16 * n
            && (mode == MODE_ECB ==> c == Ecb(key.enc, Padded(s), n))
            && (mode == MODE_CBC ==> c == CbcEncrypted(key.enc, iv, Padded(s), n))
  {
    var cipher := new Cipher(mode, iv);
    var n := |s| / 16 + 1;
    var out := new byte[16 * n];
    var input := BytesOf(s);
    var _ := cipher.PadEncrypt(key, input, |s|, out);
    assert s[..|s|] == s;
    c := out[..16 * n];
  }

  method DecryptPadded(mode: byte, iv: Block, key: Key, c: seq<byte>, ghost n: nat, ghost p: seq<byte>)
      returns (ret: int, plain: seq<byte>)
    requires key.direction.ToDecrypt? && |c| == 16 * n > 0 && mode in {MODE_ECB, MODE_CBC}
    requires mode == MODE_ECB ==> p == Ecb(key.dec, c, n)
    requires mode == MODE_CBC ==> p == CbcDecrypted(key.dec, iv, c, n)
    ensures Unpadded(p, mode == MODE_CBC, ret, plain)
    ensures ret >= 0 ==> ret == |plain|
    ensures ret < 0 ==> plain == []
  {
    var cipher := new Cipher(mode, iv);
    var out := new byte[|c|];
    assert |c| / 16 == n && |c| % 16 == 0;
    var input := BytesOf(c);
    ret := cipher.PadDecrypt(key, input, |c|, out);
    assert Unpadded(p, mode == MODE_CBC, ret, out[..]);
    if ret < 0 {
      return ret, [];
    }
    plain := out[..ret];
  }

  /** Padded encryption and padded decryption, from equal starting IVs: CBC gives
      every message back, ECB exactly those that are not whole blocks. */
  method PadThereAndBack(mode: byte, iv: Block, enc: Block -> Block, dec: Block -> Block, s: seq<byte>)
      returns (ret: int, plain: seq<byte>)
    requires Undoes(dec, enc) && s != [] && mode in {MODE_ECB, MODE_CBC}
    ensures mode == MODE_CBC || |s| % 16 != 0 ==> ret == |s| && plain == s
    ensures mode == MODE_ECB && |s| % 16 == 0 ==> ret == BAD_DATA && plain == []
  {
    var c := EncryptPadded(mode, iv, Key(ToEncrypt, enc, dec), s);
    ghost var n := |s| / 16 + 1;
    WholeRoundTrip(enc, dec, iv, Padded(s), n);
    ret, plain := DecryptPadded(mode, iv, Key(ToDecrypt, enc, dec), c, n, Padded(s));
    UnpaddedIs(s, mode == MODE_CBC, ret, plain);
  }

  lemma {:induction false} UnpaddedIs(s: seq<byte>, cbc: bool, ret: int, out: seq<byte>)
    requires Unpadded(Padded(s), cbc, ret, out)
    ensures cbc || |s| % 16 != 0 ==> ret == |s| <= |out| && out[..ret] == s
    ensures !cbc && |s| % 16 == 0 ==> ret == BAD_DATA
  {
    PadComesOff(s);
  }

  /** Whole blocks come back in every mode, from equal starting IVs, when one
      buffer is enciphered and deciphered in place. */
  method BlocksThereAndBack(mode: byte, iv: Block, enc: Block -> Block, dec: Block -> Block, s: seq<byte>)
      returns (plain: seq<byte>)
    requires Undoes(dec, enc) && |s| % 16 == 0 && mode in {MODE_ECB, MODE_CBC, MODE_CFB1}
    ensures plain == s
  {
    var there := new Cipher(mode, iv);
    var back := new Cipher(mode, iv);
    var a := BytesOf(s);
    var n := |s| / 16;
    var _ := there.BlockEncrypt(Key(ToEncrypt, enc, dec), a, |s|, a);
    assert a[..16 * n] == a[..];
    var _ := back.BlockDecrypt(Key(ToDecrypt, enc, dec), a, |s|, a);
    plain := a[..];
    assert a[..16 * n] == plain && s[..16 * n] == s;
    if mode == MODE_ECB {
      EcbRoundTrip(enc, dec, s, n);
    } else if mode == MODE_CBC {
      CbcRoundTrip(enc, dec, iv, s, n);
    } else if s != [] {
      BitsComeBack(enc, iv, s, plain);
    }
  }

  lemma {:induction false} BitsComeBack(enc: Block -> Block, iv: Block, s: seq<byte>, plain: seq<byte>)
    requires |plain| == |s|
    requires var n := 8 * |s|; Bits(plain) == CfbDecrypted(enc, iv, CfbEncrypted(enc, iv, Bits(s), n).1, n).1
    ensures plain == s
  {
    CfbRoundTrip(enc, iv, Bits(s), 8 * |s|);
    assert Bits(s)[..8 * |s|] == Bits(s);
    BitsAreInjective(plain, s);
  }
}

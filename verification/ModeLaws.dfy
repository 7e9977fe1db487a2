/** What the modes of CipherModes do to each block and each bit, and which texts
    the pad is good of. */
module ModeLaws {
  import opened Bytes
  import opened CipherModes

  // ---- Bits ----

  /** A byte is made of its eight bits, the most significant one first. */
  lemma {:induction false} ByteIsItsBits(x: byte)
    ensures x == 128 * BitOf(x, 0) + 64 * BitOf(x, 1) + 32 * BitOf(x, 2) + 16 * BitOf(x, 3)
                 + 8 * BitOf(x, 4) + 4 * BitOf(x, 5) + 2 * BitOf(x, 6) + BitOf(x, 7)
  {
    TopBit(x);
    Halves(x, 0);
    Halves(x, 1);
    Halves(x, 2);
    Halves(x, 3);
    Halves(x, 4);
    Halves(x, 5);
    Halves(x, 6);
  }

  lemma {:induction false} Halves(x: byte, n: nat)
    requires n < 7
    ensures Right(x, n) == 2 * Right(x, n + 1) + BitOf(x, 7 - n)
  {
  }

  lemma {:induction false} BitsInOrder(s: seq<byte>, i: nat, j: nat)
    requires i < |s| && j < 8
    ensures 8 * i + j < |Bits(s)| && Bits(s)[8 * i + j] == BitOf(s[i], j)
  {
    assert (8 * i + j) / 8 == i && (8 * i + j) % 8 == j;
  }

  /** Bits that differ. */
  function Plus(a: Bit, b: Bit): Bit {
    if a == b then 0 else 1
  }

  /** Mixing in a block adds bit by bit without carry. */
  lemma {:induction false} XorAddsBits(a: Block, b: Block, k: nat)
    requires k < 128
    ensures Bits(Xor(a, b))[k] == Plus(Bits(a)[k], Bits(b)[k])
  {
    var x, y, m := a[k / 8], b[k / 8], 7 - k % 8;
    XorBit(x, y, 8, m);
    SumParity(Right(x, m), Right(y, m));
  }

  // ---- ECB and CBC ----

  lemma {:induction false} BlockInSum(c: seq<byte>, e: Block, n: nat, k: nat)
    requires |c| == 16 * n && k <= n
    ensures BlockAt(c + e, k) == if k < n then BlockAt(c, k) else e
  {
  }

  /** ECB enciphers every block by itself. */
  lemma {:induction false} EcbBlock(f: Block -> Block, s: seq<byte>, n: nat, k: nat)
    requires 16 * n <= |s| && k < n
    ensures BlockAt(Ecb(f, s, n), k) == f(BlockAt(s, k))
  {
    BlockInSum(Ecb(f, s, n - 1), f(BlockAt(s, n - 1)), n - 1, k);
    if k < n - 1 {
      EcbBlock(f, s, n - 1, k);
    }
  }

  /** Block k is enciphered with the cipher block before it mixed in, the first
      one with the IV. */
  ghost predicate Chains(enc: Block -> Block, iv: Block, s: seq<byte>, c: seq<byte>, k: nat) {
    && 16 * k + 16 <= |s| && 16 * k + 16 <= |c|
    && BlockAt(c, k) == enc(Xor(BlockAt(s, k), if k == 0 then iv else BlockAt(c, k - 1)))
  }

  lemma {:induction false} ChainsOn(enc: Block -> Block, iv: Block, s: seq<byte>, c: seq<byte>, e: Block, n: nat,
                                    k: nat)
    requires |c| == 16 * n && k < n && Chains(enc, iv, s, c, k)
    ensures Chains(enc, iv, s, c + e, k)
  {
    BlockInSum(c, e, n, k);
    if k > 0 {
      BlockInSum(c, e, n, k - 1);
    }
  }

  lemma {:induction false} ChainsLast(enc: Block -> Block, iv: Block, s: seq<byte>, c: seq<byte>, n: nat)
    requires |c| == 16 * n && 16 * n + 16 <= |s|
    ensures Chains(enc, iv, s, c + enc(Xor(BlockAt(s, n), Previous(iv, c, n))), n)
  {
    var e := enc(Xor(BlockAt(s, n), Previous(iv, c, n)));
    BlockInSum(c, e, n, n);
    if n > 0 {
      BlockInSum(c, e, n, n - 1);
    }
  }

  /** CBC chains every block. */
  lemma {:induction false} CbcBlock(enc: Block -> Block, iv: Block, s: seq<byte>, n: nat, k: nat)
    requires 16 * n <= |s| && k < n
    ensures Chains(enc, iv, s, CbcEncrypted(enc, iv, s, n), k)
  {
    var d := CbcEncrypted(enc, iv, s, n - 1);
    if k < n - 1 {
      CbcBlock(enc, iv, s, n - 1, k);
      ChainsOn(enc, iv, s, d, enc(Xor(BlockAt(s, n - 1), Previous(iv, d, n - 1))), n - 1, k);
    } else {
      ChainsLast(enc, iv, s, d, k);
    }
  }

  /** And back: block k is the deciphered one with the cipher block before it
      mixed in. */
  lemma {:induction false} CbcBlockBack(dec: Block -> Block, iv: Block, c: seq<byte>, n: nat, k: nat)
    requires 16 * n <= |c| && k < n
    ensures BlockAt(CbcDecrypted(dec, iv, c, n), k) == Unmixed(dec, iv, c, k)
  {
    BlockInSum(CbcDecrypted(dec, iv, c, n - 1), Unmixed(dec, iv, c, n - 1), n - 1, k);
    if k < n - 1 {
      CbcBlockBack(dec, iv, c, n - 1, k);
    }
  }

  function Unmixed(dec: Block -> Block, iv: Block, c: seq<byte>, k: nat): Block
    requires 16 * k + 16 <= |c|
  {
    Xor(dec(BlockAt(c, k)), if k == 0 then iv else BlockAt(c, k - 1))
  }

  // ---- 1-bit CFB ----

  /** The last 128 bits of IV and cipher text, after k bits of the latter. */
  ghost predicate Registers(reg: Block, iv: Block, c: seq<Bit>, k: nat) {
    k <= |c| && Bits(reg) == (Bits(iv) + c)[k..k + 128]
  }

  lemma {:induction false} RegisterMoves(reg: Block, iv: Block, c: seq<Bit>, k: nat)
    requires k < |c| && Registers(reg, iv, c, k)
    ensures Registers(Shifted(reg, c[k]), iv, c, k + 1)
  {
    ShiftedIsShift(reg, c[k]);
    var all := Bits(iv) + c;
    assert all[k + 128] == c[k];
    assert all[k..k + 128][1..] + [all[k + 128]] == all[k + 1..k + 129];
  }

  lemma {:induction false} RegisterStays(reg: Block, iv: Block, c: seq<Bit>, d: seq<Bit>, k: nat)
    requires Registers(reg, iv, c, k) && c <= d
    ensures Registers(reg, iv, d, k)
  {
    assert (Bits(iv) + d)[..k + 128] == (Bits(iv) + c)[..k + 128];
    assert (Bits(iv) + d)[k..k + 128] == (Bits(iv) + d)[..k + 128][k..];
    assert (Bits(iv) + c)[k..k + 128] == (Bits(iv) + c)[..k + 128][k..];
  }

  lemma {:induction false} KeyBitIsFirst(enc: Block -> Block, reg: Block)
    ensures KeyBit(enc, reg) == Bits(enc(reg))[0]
  {
    TopBit(enc(reg)[0]);
  }

  /** Encryption leaves the last 128 bits of IV and cipher text in the register. */
  lemma {:induction false} CfbRegister(enc: Block -> Block, iv: Block, p: seq<Bit>, n: nat)
    requires n <= |p|
    ensures var (reg, c) := CfbEncrypted(enc, iv, p, n); Registers(reg, iv, c, n)
  {
    if n == 0 {
      assert (Bits(iv) + [])[0..128] == Bits(iv);
    } else {
      var (reg, c) := CfbEncrypted(enc, iv, p, n - 1);
      var b := (p[n - 1] + KeyBit(enc, reg)) % 2;
      CfbRegister(enc, iv, p, n - 1);
      RegisterStays(reg, iv, c, c + [b], n - 1);
      RegisterMoves(reg, iv, c + [b], n - 1);
    }
  }

  /** Cipher bit k is the plain one plus the first bit of the enciphered last
      128 bits of IV and cipher text before it. */
  lemma {:induction false} CfbBitOf(enc: Block -> Block, iv: Block, p: seq<Bit>, n: nat, k: nat) returns (reg: Block)
    requires k < n <= |p|
    ensures var c := CfbEncrypted(enc, iv, p, n).1;
            Registers(reg, iv, c, k) && c[k] == Plus(p[k], Bits(enc(reg))[0])
  {
    var (last, c) := CfbEncrypted(enc, iv, p, n - 1);
    var b := (p[n - 1] + KeyBit(enc, last)) % 2;
    assert CfbEncrypted(enc, iv, p, n).1 == c + [b];
    if k < n - 1 {
      reg := CfbBitOf(enc, iv, p, n - 1, k);
    } else {
      reg := last;
      CfbRegister(enc, iv, p, k);
      KeyBitIsFirst(enc, reg);
    }
    RegisterStays(reg, iv, c, c + [b], k);
  }

  /** The same back: the register holds bits of the cipher text here too. */
  lemma {:induction false} CfbBitBack(enc: Block -> Block, iv: Block, c: seq<Bit>, n: nat, k: nat) returns (reg: Block)
    requires k < n <= |c|
    ensures Registers(reg, iv, c, k) && CfbDecrypted(enc, iv, c, n).1[k] == Plus(c[k], Bits(enc(reg))[0])
  {
    var (last, p) := CfbDecrypted(enc, iv, c, n - 1);
    if k < n - 1 {
      reg := CfbBitBack(enc, iv, c, n - 1, k);
    } else {
      reg := last;
      CfbRegisterBack(enc, iv, c, k);
      KeyBitIsFirst(enc, reg);
    }
  }

  lemma {:induction false} CfbRegisterBack(enc: Block -> Block, iv: Block, c: seq<Bit>, n: nat)
    requires n <= |c|
    ensures Registers(CfbDecrypted(enc, iv, c, n).0, iv, c, n)
  {
    if n == 0 {
      assert (Bits(iv) + c)[0..128] == Bits(iv);
    } else {
      CfbRegisterBack(enc, iv, c, n - 1);
      RegisterMoves(CfbDecrypted(enc, iv, c, n - 1).0, iv, c, n - 1);
    }
  }

  /** At any point only one block can be the register. */
  lemma {:induction false} RegisterIsUnique(a: Block, b: Block, iv: Block, c: seq<Bit>, k: nat)
    requires Registers(a, iv, c, k) && Registers(b, iv, c, k)
    ensures a == b
  {
    BitsAreInjective(a, b);
  }

  // ---- Padding ----

  /** From 1 to 16 bytes up to whole blocks, each of them their number. */
  lemma {:induction false} PadBytes(s: seq<byte>)
    ensures var r := Padded(s);
            && s <= r && |r| % 16 == 0 && 1 <= |r| - |s| <= 16
            && forall i :: |s| <= i < |r| ==> r[i] == |r| - |s|
  {
  }

  lemma {:induction false} PadTaken(t: seq<byte>) returns (s: seq<byte>)
    requires |t| % 16 == 0 && GoodPad(t, true)
    ensures t == Padded(s) && |t| - |s| == t[|t| - 1]
  {
    var n := t[|t| - 1];
    s := t[..|t| - n];
    assert n == 16 - |s| % 16;
    assert t[|t| - n..] == seq(n, _ => n);
  }

  /** The tests of ECB against those of CBC. */
  lemma {:induction false} GoodInEcb(t: seq<byte>)
    requires |t| % 16 == 0 && t != []
    ensures GoodPad(t, false) <==> t[|t| - 1] == 0 || (GoodPad(t, true) && t[|t| - 1] != 16)
  {
  }

  /** In CBC the pad is good exactly of the padded messages. */
  lemma {:induction false} GoodInCbcExactly(t: seq<byte>)
    requires |t| % 16 == 0
    ensures GoodPad(t, true) <==> exists s: seq<byte> :: t == Padded(s)
  {
    if GoodPad(t, true) {
      var s := PadTaken(t);
    } else if s: seq<byte> :| t == Padded(s) {
      PadComesOff(s);
    }
  }

  /** In ECB a pad of 16 is refused, and a last byte of zero is good too. */
  lemma {:induction false} GoodInEcbExactly(t: seq<byte>)
    requires |t| % 16 == 0 && t != []
    ensures GoodPad(t, false) <==>
            t[|t| - 1] == 0 || exists s: seq<byte> :: |s| % 16 != 0 && t == Padded(s)
  {
    GoodInEcb(t);
    if GoodPad(t, true) {
      var s := PadTaken(t);
      if t[|t| - 1] == 16 {
        OnlyWholeTakeSixteen(t);
      } else {
        assert |s| % 16 != 0;
      }
    } else if s: seq<byte> :| |s| % 16 != 0 && t == Padded(s) {
      PadComesOff(s);
    }
  }

  lemma {:induction false} OnlyWholeTakeSixteen(t: seq<byte>)
    requires |t| > 0 && t[|t| - 1] == 16
    ensures forall s: seq<byte> :: t == Padded(s) ==> |s| % 16 == 0
  {
    forall s: seq<byte> | t == Padded(s) ensures |s| % 16 == 0 {
      PadComesOff(s);
    }
  }
}

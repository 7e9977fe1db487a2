/** The buffering of MD5 (sections 3.1 to 3.5 of RFC 1321): a context that takes
    a message in pieces. The transform of one 64-byte block is any function. */
module Md5 {
  import opened Bytes

  type Word = w: int | 0 <= w < 0x1_0000_0000
  type Chain = s: seq<Word> | |s| == 4 witness [0, 0, 0, 0]
  type Chunk = s: seq<byte> | |s| == 64
    witness [0, 0, 0, 0, 0, 0, 0, 0, 0, 0, 0, 0, 0, 0, 0, 0, 0, 0, 0, 0, 0, 0, 0, 0, 0, 0, 0, 0, 0, 0, 0, 0,
             0, 0, 0, 0, 0, 0, 0, 0, 0, 0, 0, 0, 0, 0, 0, 0, 0, 0, 0, 0, 0, 0, 0, 0, 0, 0, 0, 0, 0, 0, 0, 0]

  /** MD5Transform. */
  type Transform = (Chain, Chunk) -> Chain

  const INITIAL: Chain := [0x67452301, 0xefcdab89, 0x98badcfe, 0x10325476]

  // ---- The digest of a whole message ----

  function ChunkAt(m: seq<byte>, k: nat): Chunk
    requires 64 * k + 64 <= |m|
  {
    m[64 * k..64 * k + 64]
  }

  /** The chain after the first n blocks. */
  function Fold(f: Transform, m: seq<byte>, n: nat): Chain
    requires 64 * n <= |m|
  {
    if n == 0 then INITIAL else f(Fold(f, m, n - 1), ChunkAt(m, n - 1))
  }

  /** 64 bits, the low word first. */
  function Length64(bits: nat): (r: seq<byte>)
    ensures |r| == 8
  {
    Little(bits % TWO_32) + Little(bits / TWO_32 % TWO_32)
  }

  /** A single 1 bit, zeros up to 56 mod 64 and the length in bits mod 2^64. */
  function Padded(m: seq<byte>): (r: seq<byte>)
    ensures |r| == |m| + 9 + Zeros(|m| % 64)
  {
    m + Ending(|m|)
  }

  /** The last 64 bytes of it. */
  function LastBlock(m: seq<byte>): Chunk {
    Padded(m)[|Padded(m)| - 64..]
  }

  function Ending(n: nat): (r: seq<byte>)
    ensures |r| == 9 + Zeros(n % 64)
  {
    [0x80] + seq(Zeros(n % 64), _ => 0) + Length64(8 * n)
  }

  /** How many zeros follow the 1 bit when r bytes are in the last block. */
  function Zeros(r: nat): nat
    requires r < 64
  {
    if r < 56 then 55 - r else 119 - r
  }

  lemma {:induction false} PaddedIsWhole(m: seq<byte>)
    ensures |Padded(m)| == 64 * (|m| / 64 + if |m| % 64 < 56 then 1 else 2)
  {
  }

  /** The padded message byte by byte (sections 3.1 and 3.2 of RFC 1321): the
      message, a 1 bit, no more zeros than it takes, and the number of bits with
      the least significant byte first. */
  lemma {:induction false} PaddedBytes(m: seq<byte>)
    ensures var p := Padded(m);
            && |p| % 64 == 0 && |m| + 9 <= |p| < |m| + 73 && p[..|m|] == m && p[|m|] == 0x80
            && (forall i :: |m| < i < |p| - 8 ==> p[i] == 0)
            && var e := |p| - 8;
            Number(p[e + 3], p[e + 2], p[e + 1], p[e]) + TWO_32 * Number(p[e + 7], p[e + 6], p[e + 5], p[e + 4])
            == 8 * |m| % TWO_64
  {
    PaddedIsWhole(m);
    WholeBlocks(|Padded(m)|, |m| / 64 + if |m| % 64 < 56 then 1 else 2);
    var zs := EndingParts(|m|);
    InParts(m, zs, Length64(8 * |m|));
    LengthBytes(8 * |m|);
  }

  lemma {:induction false} WholeBlocks(n: nat, k: nat)
    requires n == 64 * k
    ensures n % 64 == 0
  {
  }

  lemma {:induction false} EndingParts(n: nat) returns (zs: seq<byte>)
    ensures Ending(n) == [0x80] + zs + Length64(8 * n) && forall i :: 0 <= i < |zs| ==> zs[i] == 0
  {
    zs := seq(Zeros(n % 64), _ => 0);
  }

  lemma {:induction false} InParts(m: seq<byte>, zs: seq<byte>, l: seq<byte>)
    requires |l| == 8 && forall i :: 0 <= i < |zs| ==> zs[i] == 0
    ensures var p := m + ([0x80] + zs + l);
            var e := |p| - 8;
            && p[..|m|] == m && p[|m|] == 0x80 && (forall i :: |m| < i < e ==> p[i] == 0)
            && p[e] == l[0] && p[e + 1] == l[1] && p[e + 2] == l[2] && p[e + 3] == l[3]
            && p[e + 4] == l[4] && p[e + 5] == l[5] && p[e + 6] == l[6] && p[e + 7] == l[7]
  {
  }

  lemma {:induction false} LengthBytes(bits: nat)
    ensures var l := Length64(bits);
            Number(l[3], l[2], l[1], l[0]) + TWO_32 * Number(l[7], l[6], l[5], l[4]) == bits % TWO_64
  {
    LittleIsLittleEndian(bits % TWO_32);
    LittleIsLittleEndian(bits / TWO_32 % TWO_32);
    var l, a, b := Length64(bits), Little(bits % TWO_32), Little(bits / TWO_32 % TWO_32);
    assert l[0] == a[0] && l[1] == a[1] && l[2] == a[2] && l[3] == a[3];
    assert l[4] == b[0] && l[5] == b[1] && l[6] == b[2] && l[7] == b[3];
    LowAndHighWords(bits);
  }

  lemma {:induction false} LowAndHighWords(x: nat)
    ensures x % TWO_32 + TWO_32 * (x / TWO_32 % TWO_32) == x % TWO_64
  {
    var h := x / TWO_32;
    var q := h / TWO_32;
    assert x == TWO_32 * h + x % TWO_32 && h == TWO_32 * q + h % TWO_32;
    assert x == TWO_64 * q + (TWO_32 * (h % TWO_32) + x % TWO_32);
  }

  /** The initial chain in bytes is 0 to f and back, nibble by nibble (section 3.3). */
  lemma {:induction false} InitialBytes()
    ensures ChainBytes(INITIAL) == [0x01, 0x23, 0x45, 0x67, 0x89, 0xab, 0xcd, 0xef,
                                    0xfe, 0xdc, 0xba, 0x98, 0x76, 0x54, 0x32, 0x10]
  {
  }

  /** Each word of a chain in bytes, the least significant one first. */
  lemma {:induction false} ChainWord(c: Chain, k: nat)
    requires k < 4
    ensures var b := ChainBytes(c); Number(b[4 * k + 3], b[4 * k + 2], b[4 * k + 1], b[4 * k]) == c[k]
  {
    LittleIsLittleEndian(c[k]);
    var b, l := ChainBytes(c), Little(c[k]);
    assert b[4 * k] == l[0] && b[4 * k + 1] == l[1] && b[4 * k + 2] == l[2] && b[4 * k + 3] == l[3];
  }

  function ChainBytes(c: Chain): (r: seq<byte>)
    ensures |r| == 16
  {
    Little(c[0]) + Little(c[1]) + Little(c[2]) + Little(c[3])
  }

  function Digest(f: Transform, m: seq<byte>): seq<byte> {
    ChainBytes(Fold(f, Padded(m), |Padded(m)| / 64))
  }

  /** A run of the transform over the blocks of a message, from the initial chain. */
  ghost predicate RunsOver(cs: seq<Chain>, f: Transform, m: seq<byte>) {
    && cs != [] && 64 * (|cs| - 1) <= |m| && cs[0] == INITIAL
    && forall k :: 0 < k < |cs| ==> cs[k] == f(cs[k - 1], m[64 * (k - 1)..64 * k])
  }

  lemma {:induction false} FoldRuns(f: Transform, m: seq<byte>, n: nat) returns (cs: seq<Chain>)
    requires 64 * n <= |m|
    ensures RunsOver(cs, f, m) && |cs| == n + 1 && cs[n] == Fold(f, m, n)
  {
    if n == 0 {
      cs := [INITIAL];
    } else {
      var before := FoldRuns(f, m, n - 1);
      cs := before + [f(before[n - 1], ChunkAt(m, n - 1))];
    }
  }

  /** The digest is the end of the run over all blocks of the padded message
      (section 3.4). */
  lemma {:induction false} DigestRuns(f: Transform, m: seq<byte>) returns (cs: seq<Chain>)
    ensures RunsOver(cs, f, Padded(m)) && |Padded(m)| == 64 * (|cs| - 1)
    ensures Digest(f, m) == ChainBytes(cs[|cs| - 1])
  {
    PaddedIsWhole(m);
    cs := FoldRuns(f, Padded(m), |Padded(m)| / 64);
  }

  lemma {:induction false} FoldPrefix(f: Transform, m: seq<byte>, r: seq<byte>, n: nat)
    requires 64 * n <= |m| && m <= r
    ensures Fold(f, r, n) == Fold(f, m, n)
  {
    if n > 0 {
      FoldPrefix(f, m, r, n - 1);
      assert ChunkAt(r, n - 1) == ChunkAt(m, n - 1);
    }
  }

  // ---- The bit counter ----

  /** 64-bit addition by a carry between two words. */
  lemma {:induction false} CarryAdds(lo: Word, hi: Word, len: nat, total: nat)
    requires len < TWO_32 && lo + TWO_32 * hi == 8 * total % TWO_64
    ensures var l := (lo + len * 8 % TWO_32) % TWO_32;
            var h := (if l < lo then (hi + 1) % TWO_32 else hi as int);
            l + TWO_32 * ((h + len / 0x2000_0000) % TWO_32) == 8 * (total + len) % TWO_64
  {
    var low, high := len * 8 % TWO_32, len / 0x2000_0000;
    assert 8 * len == low + TWO_32 * high;
    var l := (lo + low) % TWO_32;
    var carry := if l < lo then 1 else 0;
    assert lo + low == l + TWO_32 * carry;
    var h := (if l < lo then (hi + 1) % TWO_32 else hi as int);
    TwoCarries(hi, carry, high);
    assert lo + TWO_32 * hi + 8 * len == l + TWO_32 * (hi + carry + high);
    HighWord(l, hi + carry + high);
    SameModulo(8 * total, 8 * len);
  }

  lemma {:induction false} TwoCarries(hi: nat, carry: nat, high: nat)
    requires hi < TWO_32 && carry <= 1
    ensures ((if carry == 1 then (hi + 1) % TWO_32 else hi) + high) % TWO_32 == (hi + carry + high) % TWO_32
  {
    if carry == 1 && hi + 1 == TWO_32 {
      assert (hi + carry + high) % TWO_32 == (TWO_32 + high) % TWO_32;
    }
  }

  lemma {:induction false} HighWord(l: nat, h: nat)
    requires l < TWO_32
    ensures (l + TWO_32 * h) % TWO_64 == l + TWO_32 * (h % TWO_32)
  {
    var q := h / TWO_32;
    assert h == TWO_32 * q + h % TWO_32;
    assert l + TWO_32 * h == TWO_64 * q + (l + TWO_32 * (h % TWO_32));
  }

  lemma {:induction false} SameModulo(a: nat, b: nat)
    ensures (a % TWO_64 + b) % TWO_64 == (a + b) % TWO_64
  {
    var q := a / TWO_64;
    assert a + b == TWO_64 * q + (a % TWO_64 + b);
  }

  /** The low word still tells how many bytes of a block are buffered. */
  lemma {:induction false} BufferedBytes(lo: Word, hi: Word, total: nat)
    requires lo + TWO_32 * hi == 8 * total % TWO_64
    ensures lo / 8 % 64 == total % 64
  {
    var q := 8 * total / TWO_64;
    assert 8 * total == TWO_64 * q + lo + TWO_32 * hi;
    assert lo == 8 * (total - 0x2000_0000_0000_0000 * q - 0x2000_0000 * hi);
    assert lo / 8 == total - 64 * (0x80_0000_0000_0000 * q + 0x80_0000 * hi);
  }

  // ---- The context ----

  lemma {:induction false} FoldNext(f: Transform, m: seq<byte>, n: nat, c: Chunk)
    requires 64 * n + 64 <= |m| && c == m[64 * n..64 * n + 64]
    ensures Fold(f, m, n + 1) == f(Fold(f, m, n), c)
  {
  }

  class Context {
    var buf: Chain
    var lo: Word
    var hi: Word
    const input: array<byte>

    /** The context has taken in m: whole blocks are in the chain, the rest is
        buffered, and the two words count the bits of m mod 2^64. */
    ghost predicate Holds(f: Transform, m: seq<byte>)
      reads this, input
    {
      && input.Length == 64
      && lo + TWO_32 * hi == 8 * |m| % TWO_64
      && Buffers(f, m)
    }

    ghost predicate Buffers(f: Transform, m: seq<byte>)
      reads this`buf, input
    {
      && input.Length == 64
      && buf == Fold(f, m, |m| / 64)
      && input[..|m| % 64] == m[|m| - |m| % 64..]
    }

    /** MD5Init. */
    constructor (f: Transform)
      ensures Holds(f, []) && fresh(input)
    {
      buf, lo, hi := INITIAL, 0, 0;
      input := new byte[64];
    }

    /** memcpy(in + at, data, |data|). */
    method Fill(at: nat, data: seq<byte>)
      requires input.Length == 64 && at + |data| <= 64
      modifies input
      ensures input[..at + |data|] == old(input[..at]) + data
    {
      forall i | 0 <= i < |data| {
        input[at + i] := data[i];
      }
      assert input[..at] == old(input[..at]);
    }

    /** Adds the bits of len bytes. */
    method Count(len: nat, ghost total: nat)
      requires len < TWO_32 && lo + TWO_32 * hi == 8 * total % TWO_64
      modifies this`lo, this`hi
      ensures lo + TWO_32 * hi == 8 * (total + len) % TWO_64
    {
      var t := lo;
      CarryAdds(lo, hi, len, total);
      lo := (t + len * 8 % TWO_32) % TWO_32;
      if lo < t {
        hi := (hi as int + 1) % TWO_32;
      }
      hi := (hi as int + len / 0x2000_0000) % TWO_32;
    }

    /** Whole blocks straight from the data, then the rest into the buffer; the
        message so far ends with a whole block before `data`. */
    method Absorb(f: Transform, data: seq<byte>, ghost m: seq<byte>)
      requires input.Length == 64 && |m| % 64 == 0 && buf == Fold(f, m, |m| / 64)
      modifies this`buf, input
      ensures Buffers(f, m + data)
    {
      var at := 0;
      ghost var all, n := m + data, |m| / 64;
      FoldPrefix(f, m, all, n);
      while |data| - at >= 64
        invariant at <= |data| && 64 * n == |m| + at
        invariant buf == Fold(f, all, n)
      {
        var chunk: Chunk := data[at..at + 64];
        Take(f, chunk);
        assert chunk == all[64 * n..64 * n + 64];
        FoldNext(f, all, n, chunk);
        at, n := at + 64, n + 1;
      }
      Fill(0, data[at..]);
      assert n == |all| / 64 && |all| % 64 == |data| - at;
      assert all[64 * n..] == data[at..];
    }

    /** memcpy into the buffer and a transform of it. */
    method Take(f: Transform, chunk: Chunk)
      requires input.Length == 64
      modifies this`buf, input
      ensures buf == f(old(buf), chunk)
    {
      Fill(0, chunk);
      assert input[..] == input[..0 + |chunk|] == chunk;
      buf := f(buf, input[..]);
    }

    /** MD5Update. */
    method Update(f: Transform, data: seq<byte>, ghost m: seq<byte>)
      requires |data| < TWO_32 && Holds(f, m)
      modifies this, input
      ensures Holds(f, m + data)
    {
      BufferedBytes(lo, hi, |m|);
      var t := lo as int / 8 % 64;
      Count(|data|, |m|);
      if t != 0 {
        t := 64 - t;
        if |data| < t {
          Fill(64 - t, data);
          StillBuffered(f, m, data);
          return;
        }
        CompleteBlock(f, data[..t], m);
        Absorb(f, data[t..], m + data[..t]);
        assert m + data[..t] + data[t..] == m + data;
      } else {
        Absorb(f, data, m);
      }
    }

    /** What the buffered bytes lack of a block, and a transform of it. */
    method CompleteBlock(f: Transform, head: seq<byte>, ghost m: seq<byte>)
      requires Buffers(f, m) && |m| % 64 + |head| == 64
      modifies this`buf, input
      ensures |m + head| % 64 == 0 && buf == Fold(f, m + head, |m + head| / 64)
    {
      ghost var part := input[..|m| % 64];
      Fill(64 - |head|, head);
      assert input[..] == part + head;
      BlockCompleted(f, m, head, input[..]);
      buf := f(buf, input[..]);
    }

    lemma {:induction false} StillBuffered(f: Transform, m: seq<byte>, data: seq<byte>)
      requires input.Length == 64 && buf == Fold(f, m, |m| / 64) && |m| % 64 + |data| < 64
      requires input[..|m| % 64 + |data|] == m[|m| - |m| % 64..] + data
      ensures Buffers(f, m + data)
    {
      FoldPrefix(f, m, m + data, |m| / 64);
      assert |m + data| / 64 == |m| / 64;
    }

    /** memset(in + from, 0, n). */
    method Zero(from: nat, n: nat)
      requires input.Length == 64 && from + n <= 64
      modifies input
      ensures input[..] == old(input[..from]) + seq(n, _ => 0) + old(input[from + n..])
    {
      forall i | 0 <= i < n {
        input[from + i] := 0;
      }
    }

    /** Two lots of padding: the first block is closed, 56 bytes of the next cleared. */
    method FirstLot(f: Transform, count: nat) returns (ghost first: Chunk)
      requires input.Length == 64 && count <= 64
      modifies this`buf, input
      ensures first == old(input[..64 - count]) + seq(count, _ => 0)
      ensures buf == f(old(buf), first)
      ensures input[..56] == seq(56, _ => 0)
    {
      Zero(64 - count, count);
      first := input[..];
      buf := f(buf, input[..]);
      Zero(0, 56);
    }

    /** MD5Final. The last line is meant to wipe the context but takes the size of
        a pointer to it: eight bytes, the first two words of the chain. The rest
        of the chain, the count and the last block of the message stay. */
    method Final(f: Transform, ghost m: seq<byte>) returns (digest: seq<byte>)
      requires Holds(f, m)
      modifies this, input
      ensures digest == Digest(f, m)
      ensures buf[0] == 0 && buf[1] == 0
      ensures ChainBytes(buf)[8..] == digest[8..] && lo == old(lo) && hi == old(hi)
      ensures input[..] == LastBlock(m)
    {
      PadUp(f, m);
      LastFold(f, m);
      buf := f(buf, input[..]);
      digest := ChainBytes(buf);
      buf := [0, 0, buf[2], buf[3]];
    }

    /** All of MD5Final before the last transform. */
    method PadUp(f: Transform, ghost m: seq<byte>)
      requires Holds(f, m)
      modifies this`buf, input
      ensures input[..] == LastBlock(m) && buf == Fold(f, Padded(m), |Padded(m)| / 64 - 1)
    {
      BufferedBytes(lo, hi, |m|);
      LengthWords(lo, hi, |m|);
      var count := lo as int / 8 % 64;
      ghost var rest := input[..count];
      Fill(count, [0x80]);
      count := 63 - count;
      if count < 8 {
        ghost var first := FirstLot(f, count);
        Lengths();
        LastTwo(f, m, rest, first, input[..]);
      } else {
        Zero(64 - count, count - 8);
        Lengths();
        LastOne(f, m, rest, input[..]);
      }
    }

    /** The count of bits as the last two words of the block. */
    method Lengths()
      requires input.Length == 64
      modifies input
      ensures input[..] == old(input[..56]) + Little(lo) + Little(hi)
    {
      ghost var was := input[..56];
      Fill(56, Little(lo));
      Fill(60, Little(hi));
      assert input[..] == input[..60 + 4];
    }
  }

  lemma {:induction false} BlockCompleted(f: Transform, m: seq<byte>, head: seq<byte>, block: seq<byte>)
    requires |m| % 64 + |head| == 64 && |block| == 64
    requires block == m[|m| - |m| % 64..] + head
    ensures |m + head| % 64 == 0
    ensures Fold(f, m + head, |m + head| / 64) == f(Fold(f, m, |m| / 64), block)
  {
    var n := |m| / 64;
    FoldPrefix(f, m, m + head, n);
    assert |m + head| == 64 * (n + 1);
    FoldNext(f, m + head, n, block);
  }

  lemma {:induction false} LengthWords(lo: Word, hi: Word, total: nat)
    requires lo + TWO_32 * hi == 8 * total % TWO_64
    ensures Little(lo) + Little(hi) == Length64(8 * total)
  {
    var x := 8 * total;
    var q := x / TWO_64;
    assert x == lo + TWO_32 * (hi + TWO_32 * q);
    LowAndHigh(x, lo, hi + TWO_32 * q);
    LowAndHigh(hi + TWO_32 * q, hi, q);
  }

  lemma {:induction false} LowAndHigh(x: nat, low: nat, high: nat)
    requires x == low + TWO_32 * high && low < TWO_32
    ensures x % TWO_32 == low && x / TWO_32 == high
  {
  }

  lemma {:induction false} PaddedTail(m: seq<byte>, at: nat)
    requires at <= |m|
    ensures Padded(m)[at..] == m[at..] + Ending(|m|)
  {
  }

  lemma {:induction false} TwoHalves(p: seq<byte>, at: nat, first: seq<byte>, second: seq<byte>)
    requires |first| == |second| == 64 && |p| == at + 128 && p[at..] == first + second
    ensures p[at..at + 64] == first && p[at + 64..at + 128] == second
  {
    assert p[at..][..64] == p[at..at + 64] && p[at..][64..] == p[at + 64..at + 128];
  }

  lemma {:induction false} EndingInOne(n: nat, rest: seq<byte>, block: seq<byte>)
    requires n % 64 < 56 && block == rest + [0x80] + seq(55 - n % 64, _ => 0) + Length64(8 * n)
    ensures block == rest + Ending(n)
  {
    var zs := seq(55 - n % 64, _ => 0 as byte);
    assert Ending(n) == [0x80] + zs + Length64(8 * n);
  }

  lemma {:induction false} LastOne(f: Transform, m: seq<byte>, rest: seq<byte>, block: seq<byte>)
    requires |m| % 64 < 56 && rest == m[|m| - |m| % 64..] && |block| == 64
    requires block == rest + [0x80] + seq(55 - |m| % 64, _ => 0) + Length64(8 * |m|)
    ensures LastBlock(m) == block && Fold(f, Padded(m), |Padded(m)| / 64 - 1) == Fold(f, m, |m| / 64)
  {
    var n, p := |m| / 64, Padded(m);
    PaddedIsWhole(m);
    PaddedTail(m, 64 * n);
    EndingInOne(|m|, rest, block);
    FoldPrefix(f, m, p, n);
    assert |p| - 64 == 64 * n;
  }

  /** The last transform gives the digest. */
  lemma {:induction false} LastFold(f: Transform, m: seq<byte>)
    ensures var p := Padded(m);
            |p| >= 64 && ChainBytes(f(Fold(f, p, |p| / 64 - 1), LastBlock(m))) == Digest(f, m)
  {
    var p := Padded(m);
    PaddedIsWhole(m);
    var k := |m| / 64 + if |m| % 64 < 56 then 0 else 1;
    assert |p| == 64 * k + 64 && |p| / 64 - 1 == k;
    FoldNext(f, p, k, LastBlock(m));
  }

  /** The zeros run on from one block to the next. */
  lemma {:induction false} EndingInTwo(n: nat, rest: seq<byte>, first: seq<byte>, second: seq<byte>)
    requires n % 64 >= 56 && first == rest + [0x80] + seq(63 - n % 64, _ => 0)
    requires second == seq(56, _ => 0) + Length64(8 * n)
    ensures first + second == rest + Ending(n)
  {
    var a, b, l := seq(63 - n % 64, _ => 0 as byte), seq(56, _ => 0 as byte), Length64(8 * n);
    assert a + b == seq(119 - n % 64, _ => 0 as byte);
    assert first + second == rest + ([0x80] + (a + b) + l);
  }

  lemma {:induction false} LastTwo(f: Transform, m: seq<byte>, rest: seq<byte>, first: seq<byte>, second: seq<byte>)
    requires |m| % 64 >= 56 && rest == m[|m| - |m| % 64..] && |first| == 64 && |second| == 64
    requires first == rest + [0x80] + seq(63 - |m| % 64, _ => 0)
    requires second == seq(56, _ => 0) + Length64(8 * |m|)
    ensures LastBlock(m) == second && Fold(f, Padded(m), |Padded(m)| / 64 - 1) == f(Fold(f, m, |m| / 64), first)
  {
    var n, p := |m| / 64, Padded(m);
    PaddedIsWhole(m);
    PaddedTail(m, 64 * n);
    EndingInTwo(|m|, rest, first, second);
    EndsInTwo(f, m, p, n, first, second);
  }

  lemma {:induction false} EndsInTwo(f: Transform, m: seq<byte>, p: seq<byte>, n: nat, first: Chunk, second: Chunk)
    requires 64 * n <= |m| && m <= p && |p| == 64 * n + 128 && p[64 * n..] == first + second
    ensures p[|p| - 64..] == second && |p| / 64 - 1 == n + 1 && Fold(f, p, n + 1) == f(Fold(f, m, n), first)
  {
    TwoHalves(p, 64 * n, first, second);
    FoldPrefix(f, m, p, n);
    FoldNext(f, p, n, first);
    assert p[|p| - 64..] == p[64 * n + 64..64 * n + 128];
  }

  // ---- Whole uses ----

  /** MD5 of one buffer. */
  method Md5(f: Transform, data: seq<byte>) returns (digest: seq<byte>)
    requires |data| < TWO_32
    ensures digest == Digest(f, data)
  {
    var ctx := new Context(f);
    ctx.Update(f, data, []);
    assert [] + data == data;
    digest := ctx.Final(f, data);
  }

  function Joined(pieces: seq<seq<byte>>): seq<byte> {
    if pieces == [] then [] else Joined(pieces[..|pieces| - 1]) + pieces[|pieces| - 1]
  }

  /** However a message is cut into pieces, its digest is that of the whole. */
  method Md5OfPieces(f: Transform, pieces: seq<seq<byte>>) returns (digest: seq<byte>)
    requires forall p :: p in pieces ==> |p| < TWO_32
    ensures digest == Digest(f, Joined(pieces))
  {
    var ctx := new Context(f);
    var i := 0;
    while i < |pieces|
      invariant i <= |pieces| && ctx.Holds(f, Joined(pieces[..i]))
      invariant fresh(ctx) && fresh(ctx.input)
    {
      assert pieces[..i + 1][..i] == pieces[..i];
      ctx.Update(f, pieces[i], Joined(pieces[..i]));
      i := i + 1;
    }
    assert pieces[..i] == pieces;
    digest := ctx.Final(f, Joined(pieces));
  }
}

/** The client's ring buffer, clientsdk/client/ef_loop_buf.cpp: a first-in
    first-out byte sequence kept in an array that it wraps around. */
module RingBuffer {
  import opened Bytes

  /** The remainder that the code computes with %, for a position at most two rounds on. */
  function Wrapped(x: nat, cap: nat): nat {
    if x < cap then x else if x < 2 * cap then x - cap else 0
  }

  lemma {:induction false} RemainderIsUnique(x: nat, cap: nat, q: nat, r: nat)
    requires r < cap && x == q * cap + r
    ensures x % cap == r
  {
    var d := x / cap - q;
    assert x == cap * (x / cap) + x % cap;
    assert d * cap == r - x % cap;
    MultipleIsFar(d, cap);
  }

  lemma MultipleIsFar(d: int, cap: int)
    requires 0 <= cap
    ensures d >= 1 ==> d * cap >= cap
    ensures d <= -1 ==> d * cap <= -cap
  {
  }

  lemma {:induction false} WrapsToZero(x: nat, n: nat, cap: nat)
    requires 0 < cap && x <= 2 * cap && Wrapped(x, cap) + n == cap
    ensures x + n <= 2 * cap ==> Wrapped(x + n, cap) == 0
  {
  }

  method Modulo(x: nat, cap: nat) returns (r: nat)
    requires 0 < cap && x <= 2 * cap
    ensures r == Wrapped(x, cap)
  {
    RemainderIsUnique(x, cap, if x < cap then 0 else if x < 2 * cap then 1 else 2, Wrapped(x, cap));
    r := x % cap;
  }

  /** `len` bytes of the ring from position `from` on. */
  ghost function Window(ring: seq<byte>, from: nat, len: nat): (r: seq<byte>)
    requires from <= |ring| && len <= |ring|
    ensures |r| == len
  {
    if from + len <= |ring| then ring[from..from + len] else ring[from..] + ring[..from + len - |ring|]
  }

  /** Bytes stored right after a window extend it. */
  lemma StoredAfterWindow(ring: seq<byte>, ring': seq<byte>, from: nat, len: nat, data: seq<byte>)
    requires 0 < |ring| && from <= |ring| && len + |data| <= |ring|
    requires var stop := Wrapped(from + len, |ring|);
             stop + |data| <= |ring| && ring' == ring[..stop] + data + ring[stop + |data|..]
    ensures Window(ring', from, len + |data|) == Window(ring, from, len) + data
  {
    var stop := Wrapped(from + len, |ring|);
    if data == [] {
      assert ring' == ring;
    } else if from + len < |ring| {
      assert ring'[from..from + len] == ring[from..from + len];
      assert ring'[from..from + len + |data|] == ring[from..from + len] + data;
    } else {
      assert ring'[from..] == ring[from..];
      assert ring'[..stop + |data|] == ring[..stop] + data;
      assert ring[from..] + (ring[..stop] + data) == ring[from..] + ring[..stop] + data;
    }
  }

  class RingBuffer {
    var buf: array<byte>
    var size: nat
    var start: nat

    /** start may equal the capacity: then all content has wrapped around. */
    ghost predicate Valid()
      reads this
    {
      0 < buf.Length && size <= buf.Length && start <= buf.Length && (size == 0 ==> start == 0)
    }

    ghost function Contents(): seq<byte>
      requires Valid()
      reads this, buf
    {
      Window(buf[..], start, size)
    }

    constructor (cap: nat)
      requires 0 < cap
      ensures Valid() && fresh(buf) && buf.Length == cap && Contents() == []
    {
      buf := new byte[cap];
      size, start := 0, 0;
    }

    /** Removes and returns the first bytes, at most len. */
    method Read(len: nat) returns (out: seq<byte>)
      requires Valid()
      modifies this`size, this`start
      ensures Valid()
      ensures out == old(Contents())[..Min(len, old(size))]
      ensures Contents() == old(Contents())[Min(len, old(size))..]
    {
      var realread := if size <= len then size else len;
      var firsthalf := buf.Length - start;
      if firsthalf < realread {
        out := buf[start..] + buf[..realread - firsthalf];
        start := realread - firsthalf;
      } else {
        out := buf[start..start + realread];
        start := start + realread;
      }
      size := size - realread;
      if size <= 0 {
        start := 0;
      }
    }

    /** The first bytes, at most len. */
    method Peek(len: nat) returns (out: seq<byte>)
      requires Valid()
      ensures out == Contents()[..Min(len, size)]
    {
      var realread := if size <= len then size else len;
      var firsthalf := buf.Length - start;
      if firsthalf < realread {
        out := buf[start..] + buf[..realread - firsthalf];
      } else {
        out := buf[start..start + realread];
      }
    }

    /** Appends as many bytes of data as there is room for. */
    method Write(data: seq<byte>) returns (realwrite: nat)
      requires Valid()
      modifies this`size, buf
      ensures Valid() && buf == old(buf)
      ensures realwrite == Min(|data|, buf.Length - old(size))
      ensures Contents() == old(Contents()) + data[..realwrite]
    {
      realwrite := if |data| > buf.Length - size then buf.Length - size else |data|;
      StoreBehind(data[..realwrite]);
      size := size + realwrite;
    }

    /** The bytes go behind the content, in one piece or two. */
    method StoreBehind(d: seq<byte>)
      requires Valid() && size + |d| <= buf.Length
      modifies buf
      ensures Window(buf[..], start, size + |d|) == Window(old(buf[..]), start, size) + d
    {
      var stop := Modulo(start + size, buf.Length);
      var firsthalf := buf.Length - stop;
      if firsthalf < |d| {
        assert d[..firsthalf] + d[firsthalf..] == d;
        StoreInTwo(d[..firsthalf], d[firsthalf..], stop);
      } else {
        StoreAfter(stop, d, size);
      }
    }

    /** The two memmoves of a write that wraps around. */
    method StoreInTwo(first: seq<byte>, second: seq<byte>, stop: nat)
      requires Valid() && size + |first| + |second| <= buf.Length
      requires stop == Wrapped(start + size, buf.Length) && stop + |first| == buf.Length
      modifies buf
      ensures Window(buf[..], start, size + |first| + |second|) == Window(old(buf[..]), start, size) + (first + second)
    {
      ghost var before := Window(buf[..], start, size);
      StoreAfter(stop, first, size);
      WrapsToZero(start + size, |first|, buf.Length);
      StoreAfter(0, second, size + |first|);
      assert (before + first) + second == before + (first + second);
    }

    /** One memmove of write: data goes right after the first len bytes. */
    method StoreAfter(stop: nat, data: seq<byte>, ghost len: nat)
      requires Valid() && len + |data| <= buf.Length
      requires stop == Wrapped(start + len, buf.Length) && stop + |data| <= buf.Length
      modifies buf
      ensures Window(buf[..], start, len + |data|) == Window(old(buf[..]), start, len) + data
    {
      ghost var ring := buf[..];
      Store(buf, stop, data);
      StoredAfterWindow(ring, buf[..], start, len, data);
    }

    /** Replaces the array; drops what does not fit. */
    method Resize(cap: nat) returns (kept: nat)
      requires Valid() && 0 < cap
      modifies this
      ensures Valid() && fresh(buf) && buf.Length == cap
      ensures kept == Min(old(size), cap) && Contents() == old(Contents())[..kept]
    {
      var content := Read(cap);
      kept := |content|;
      var replacement := new byte[cap];
      Store(replacement, 0, content);
      buf, size, start := replacement, kept, 0;
      assert buf[..][..kept] == content;
    }

    /** A resize that keeps everything. */
    method Grow(cap: nat)
      requires Valid() && 0 < cap && size <= cap
      modifies this
      ensures Valid() && fresh(buf) && buf.Length == cap && size == old(size) && Contents() == old(Contents())
    {
      ghost var all := Contents();
      var kept := Resize(cap);
      assert all[..kept] == all;
    }

    /** Never short: the doubled capacity always has room. */
    method AutoResizeWrite(data: seq<byte>) returns (realwrite: nat)
      requires Valid()
      modifies this, buf
      ensures Valid() && (buf == old(buf) || fresh(buf))
      ensures realwrite == |data| && Contents() == old(Contents()) + data
    {
      if size + |data| > buf.Length {
        var nlen := if buf.Length > |data| then buf.Length * 2 else |data| * 2;
        Grow(nlen);
      }
      realwrite := Write(data);
      assert data[..|data|] == data;
    }

    /** The room up to the next wrap-around. */
    method NextPartLen() returns (len: nat)
      requires Valid()
      ensures len <= buf.Length - size && NextPart() + len <= buf.Length
      ensures len == 0 <==> size == buf.Length
    {
      var leftsize := buf.Length - size;
      var stop := Modulo(start + size, buf.Length);
      var nextpart := buf.Length - stop;
      len := if nextpart < leftsize then nextpart else leftsize;
    }

    ghost function NextPart(): nat
      requires Valid()
      reads this
    {
      Wrapped(start + size, buf.Length)
    }

    /** What handleRead does: receive into the next part, then write(NULL, n). */
    method Receive(data: seq<byte>, room: nat)
      requires Valid() && |data| <= room <= buf.Length - size && NextPart() + room <= buf.Length
      modifies this`size, buf
      ensures Valid() && buf == old(buf)
      ensures Contents() == old(Contents()) + data
    {
      var stop := Modulo(start + size, buf.Length);
      StoreAfter(stop, data, size);
      size := size + |data|;
    }

    method Clear() returns (dropped: nat)
      requires Valid()
      modifies this`size, this`start
      ensures Valid() && dropped == old(size) && Contents() == []
    {
      dropped := size;
      size, start := 0, 0;
    }
  }
}

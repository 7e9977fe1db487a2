/** How packets are cut out of a byte stream: checkLen and constructPacket of
    connect_server/src/common.cpp, the packet loop of efnfw/net/ef_connection.cpp
    and the one of clientsdk/client/client_conn.cpp. */
module Framing {
  import opened Bytes

  /** magic, len and cmd, four bytes each. */
  const HEAD_SIZE := 12

  /** The client has no limit but the type of the length field. */
  const ANY_PACKET: int32 := 0x7FFF_FFFF

  function HeadLen(packet: seq<byte>): int32
    requires |packet| >= HEAD_SIZE
  {
    NetValue(packet[4..8])
  }

  function HeadCmd(packet: seq<byte>): int32
    requires |packet| >= HEAD_SIZE
  {
    NetValue(packet[8..12])
  }

  /** The length of the packet at the start of buf, 0 to wait for more, -1 for
      a length that no packet has. */
  function CheckLen(limit: int32, buf: seq<byte>): (r: int)
    ensures -1 <= r <= |buf| && (r > 0 ==> r >= HEAD_SIZE)
  {
    if |buf| < HEAD_SIZE then 0
    else
      var len := HeadLen(buf);
      if len < HEAD_SIZE || len > limit then -1 else if len <= |buf| then len else 0
  }

  datatype Status = Open | BadLength | Refused

  /** The packets handed on so far, the bytes not yet used, and whether the
      connection is still good. */
  datatype Stream = Stream(handled: seq<seq<byte>>, rest: seq<byte>, status: Status)

  const START := Stream([], [], Open)

  /** The packet loop.  `accepts` is the verdict of handlePacket on a packet,
      given the packets before it. */
  function Extract(limit: int32, accepts: seq<seq<byte>> -> bool, handled: seq<seq<byte>>, buf: seq<byte>): Stream
    decreases |buf|
  {
    var n := CheckLen(limit, buf);
    if n < 0 then Stream(handled, buf, BadLength)
    else if n == 0 then Stream(handled, buf, Open)
    else
      var handled' := handled + [buf[..n]];
      if !accepts(handled') then Stream(handled', buf[n..], Refused)
      else Extract(limit, accepts, handled', buf[n..])
  }

  /** Some bytes arrive; a connection that failed takes no more. */
  function Feed(limit: int32, accepts: seq<seq<byte>> -> bool, s: Stream, chunk: seq<byte>): Stream {
    if s.status == Open then Extract(limit, accepts, s.handled, s.rest + chunk) else s
  }

  function FeedAll(limit: int32, accepts: seq<seq<byte>> -> bool, s: Stream, chunks: seq<seq<byte>>): Stream
    decreases |chunks|
  {
    if chunks == [] then s else FeedAll(limit, accepts, Feed(limit, accepts, s, chunks[0]), chunks[1..])
  }

  function Concat(chunks: seq<seq<byte>>): seq<byte> {
    if chunks == [] then [] else chunks[0] + Concat(chunks[1..])
  }

  // ---- the cut of the stream into chunks does not matter ----

  lemma {:induction false} CheckLenAppend(limit: int32, a: seq<byte>, b: seq<byte>)
    requires CheckLen(limit, a) != 0
    ensures CheckLen(limit, a + b) == CheckLen(limit, a)
  {
    assert (a + b)[4..8] == a[4..8];
  }

  lemma {:induction false} ExtractAppend(limit: int32, accepts: seq<seq<byte>> -> bool,
                                         handled: seq<seq<byte>>, a: seq<byte>, b: seq<byte>)
    ensures var e := Extract(limit, accepts, handled, a);
            Extract(limit, accepts, handled, a + b) ==
            if e.status == Open then Extract(limit, accepts, e.handled, e.rest + b)
            else Stream(e.handled, e.rest + b, e.status)
    decreases |a|
  {
    var n := CheckLen(limit, a);
    if n != 0 {
      CheckLenAppend(limit, a, b);
      if n > 0 {
        assert (a + b)[..n] == a[..n] && (a + b)[n..] == a[n..] + b;
        ExtractAppend(limit, accepts, handled + [a[..n]], a[n..], b);
      }
    }
  }

  /** Nothing more comes out of what was left over. */
  lemma {:induction false} ExtractIsDone(limit: int32, accepts: seq<seq<byte>> -> bool,
                                         handled: seq<seq<byte>>, a: seq<byte>)
    ensures var e := Extract(limit, accepts, handled, a);
            e.status == Open ==> CheckLen(limit, e.rest) == 0
    decreases |a|
  {
    var n := CheckLen(limit, a);
    if n > 0 {
      ExtractIsDone(limit, accepts, handled + [a[..n]], a[n..]);
    }
  }

  predicate Settled(limit: int32, s: Stream) {
    s.status == Open ==> CheckLen(limit, s.rest) == 0
  }

  /** Two ways of coming to the same point of the stream. */
  predicate SameOutcome(cut: Stream, whole: Stream) {
    && cut.handled == whole.handled && cut.status == whole.status
    && (cut.status == Open ==> cut.rest == whole.rest)
    && cut.rest <= whole.rest
  }

  lemma {:induction false} FeedTwice(limit: int32, accepts: seq<seq<byte>> -> bool, s: Stream,
                                     a: seq<byte>, b: seq<byte>)
    requires Settled(limit, s)
    ensures var s1 := Feed(limit, accepts, s, a);
            && Settled(limit, s1)
            && SameOutcome(Feed(limit, accepts, s1, b), Feed(limit, accepts, s, a + b))
  {
    if s.status == Open {
      var r := s.rest + a;
      assert s.rest + (a + b) == r + b;
      ExtractIsDone(limit, accepts, s.handled, r);
      ExtractAppend(limit, accepts, s.handled, r, b);
    }
  }

  /** However the bytes are cut into chunks, the same packets are handed on and
      the connection fails at the same packet or not at all; while it is good
      the same bytes are left over. */
  lemma {:induction false} ChunkingIsIrrelevant(limit: int32, accepts: seq<seq<byte>> -> bool,
                                                s: Stream, chunks: seq<seq<byte>>)
    requires Settled(limit, s)
    ensures SameOutcome(FeedAll(limit, accepts, s, chunks), Feed(limit, accepts, s, Concat(chunks)))
    decreases |chunks|
  {
    if chunks == [] {
      if s.status == Open {
        assert s.rest + [] == s.rest;
      }
    } else {
      FeedTwice(limit, accepts, s, chunks[0], Concat(chunks[1..]));
      ChunkingIsIrrelevant(limit, accepts, Feed(limit, accepts, s, chunks[0]), chunks[1..]);
    }
  }

  // ---- packets that were constructed come out again ----

  datatype Message = Message(magic: int32, cmd: int32, body: seq<byte>)

  predicate Fits(limit: int32, m: Message) {
    HEAD_SIZE + |m.body| <= limit
  }

  /** The magic field is appended as it is, the other two through htonl. */
  function ConstructPacket(m: Message): (r: seq<byte>)
    requires Fits(ANY_PACKET, m)
    ensures |r| == HEAD_SIZE + |m.body|
  {
    HostBytes(m.magic) + NetBytes(HEAD_SIZE + |m.body|) + NetBytes(m.cmd) + m.body
  }

  /** What handlePacket makes of a packet. */
  function ParsePacket(packet: seq<byte>): Message
    requires |packet| >= HEAD_SIZE
  {
    Message(HostValue(packet[0..4]), HeadCmd(packet), packet[HEAD_SIZE..])
  }

  lemma {:induction false} PacketFields(m: Message, more: seq<byte>)
    requires Fits(ANY_PACKET, m)
    ensures ParsePacket(ConstructPacket(m)) == m
    ensures HeadLen(ConstructPacket(m) + more) == HEAD_SIZE + |m.body|
  {
    var p := ConstructPacket(m);
    assert p[0..4] == HostBytes(m.magic) && p[8..12] == NetBytes(m.cmd) && p[HEAD_SIZE..] == m.body;
    assert (p + more)[4..8] == NetBytes(HEAD_SIZE + |m.body|);
    HostRoundTrip(m.magic);
    NetRoundTrip(m.cmd);
    NetRoundTrip(HEAD_SIZE + |m.body|);
  }

  /** The bytes on the wire: magic as in memory, then length and command with the
      most significant byte first, then the body. */
  lemma {:induction false} WireFormat(m: Message)
    requires Fits(ANY_PACKET, m)
    ensures var p := ConstructPacket(m);
            && Number(p[3], p[2], p[1], p[0]) == (if m.magic < 0 then m.magic + TWO_32 else m.magic)
            && Number(p[4], p[5], p[6], p[7]) == 12 + |m.body|
            && Number(p[8], p[9], p[10], p[11]) == (if m.cmd < 0 then m.cmd + TWO_32 else m.cmd)
            && p[12..] == m.body
  {
    var p := ConstructPacket(m);
    HostIsLittleEndian(m.magic);
    NetIsBigEndian(12 + |m.body|);
    NetIsBigEndian(m.cmd);
    var a, b, c := HostBytes(m.magic), NetBytes(12 + |m.body|), NetBytes(m.cmd);
    assert p[0] == a[0] && p[1] == a[1] && p[2] == a[2] && p[3] == a[3];
    assert p[4] == b[0] && p[5] == b[1] && p[6] == b[2] && p[7] == b[3];
    assert p[8] == c[0] && p[9] == c[1] && p[10] == c[2] && p[11] == c[3];
  }

  /** The length field of any packet, and its command. */
  lemma {:induction false} HeadFields(p: seq<byte>)
    requires |p| >= 12
    ensures var u := Number(p[4], p[5], p[6], p[7]);
            HeadLen(p) == if u < TWO_31 then u else u - TWO_32
    ensures var u := Number(p[8], p[9], p[10], p[11]);
            HeadCmd(p) == if u < TWO_31 then u else u - TWO_32
  {
    NetValueIs(p[4..8]);
    NetValueIs(p[8..12]);
  }

  /** Which beginnings of a stream are refused, which wait for more bytes, and
      which are a packet, by the field alone. */
  lemma {:induction false} CheckLenExactly(limit: int32, p: seq<byte>)
    ensures |p| < 12 ==> CheckLen(limit, p) == 0
    ensures |p| >= 12 ==>
              var u := Number(p[4], p[5], p[6], p[7]);
              && (CheckLen(limit, p) == -1 <==> u < 12 || u > limit || u >= TWO_31)
              && (CheckLen(limit, p) == 0 <==> |p| < u <= limit && 12 <= u)
              && (CheckLen(limit, p) > 0 ==> CheckLen(limit, p) == u)
  {
    if |p| >= 12 {
      HeadFields(p);
    }
  }

  function PacketsOf(ms: seq<Message>): seq<seq<byte>>
    requires forall i :: 0 <= i < |ms| ==> Fits(ANY_PACKET, ms[i])
  {
    if ms == [] then [] else [ConstructPacket(ms[0])] + PacketsOf(ms[1..])
  }

  lemma {:induction false} FirstPacketComesOut(limit: int32, m: Message, tail: seq<byte>)
    requires Fits(limit, m)
    ensures var p := ConstructPacket(m);
            CheckLen(limit, p + tail) == |p| && (p + tail)[..|p|] == p && (p + tail)[|p|..] == tail
  {
    PacketFields(m, tail);
  }

  lemma {:induction false} BeginningWaits(limit: int32, m: Message, cut: nat)
    requires Fits(limit, m) && cut < |ConstructPacket(m)|
    ensures CheckLen(limit, ConstructPacket(m)[..cut]) == 0
  {
    if cut >= HEAD_SIZE {
      PacketFields(m, []);
      assert ConstructPacket(m)[..cut][4..8] == (ConstructPacket(m) + [])[4..8];
    }
  }

  /** A stream of constructed packets followed by the beginning of one more is
      cut into exactly those packets, and the beginning is left over. */
  lemma {:induction false} ConstructedPacketsComeOut(limit: int32, accepts: seq<seq<byte>> -> bool,
                                                     handled: seq<seq<byte>>, ms: seq<Message>,
                                                     next: Message, cut: nat)
    requires forall i :: 0 <= i < |ms| ==> Fits(limit, ms[i]) && Fits(ANY_PACKET, ms[i])
    requires Fits(limit, next) && cut < |ConstructPacket(next)|
    requires forall h :: accepts(h)
    ensures Extract(limit, accepts, handled, Concat(PacketsOf(ms)) + ConstructPacket(next)[..cut]) ==
            Stream(handled + PacketsOf(ms), ConstructPacket(next)[..cut], Open)
    decreases |ms|
  {
    var left := ConstructPacket(next)[..cut];
    if ms == [] {
      BeginningWaits(limit, next, cut);
      assert [] + left == left && handled + [] == handled;
    } else {
      var p, tail := ConstructPacket(ms[0]), Concat(PacketsOf(ms[1..])) + left;
      SplitFirst(p, PacketsOf(ms[1..]), left, handled);
      FirstPacketComesOut(limit, ms[0], tail);
      ConstructedPacketsComeOut(limit, accepts, handled + [p], ms[1..], next, cut);
    }
  }

  lemma {:induction false} SplitFirst(p: seq<byte>, ps: seq<seq<byte>>, left: seq<byte>, handled: seq<seq<byte>>)
    ensures Concat([p] + ps) + left == p + (Concat(ps) + left)
    ensures handled + [p] + ps == handled + ([p] + ps)
  {
    assert ([p] + ps)[1..] == ps;
  }

  /** Packets parse back to the messages they were made of. */
  lemma {:induction false} PacketsParse(ms: seq<Message>, i: nat)
    requires i < |ms| && forall j :: 0 <= j < |ms| ==> Fits(ANY_PACKET, ms[j])
    ensures |PacketsOf(ms)| == |ms| && PacketsOf(ms)[i] == ConstructPacket(ms[i])
    ensures ParsePacket(PacketsOf(ms)[i]) == ms[i]
  {
    PacketFields(ms[i], []);
    if |ms| > 1 {
      PacketsParse(ms[1..], if i == 0 then 0 else i - 1);
    }
  }
}

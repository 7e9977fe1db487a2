/** The receiving side of clientsdk/client/client_conn.cpp, on the ring buffer:
    it takes all the socket has, then cuts packets of any length. */
module ClientConnection {
  import opened Bytes
  import opened Framing
  import opened RingBuffer

  function AcceptAll(): seq<seq<byte>> -> bool {
    handled => true
  }

  class Client {
    var buf: RingBuffer
    var handled: seq<Message>
    ghost var stream: Stream

    ghost predicate Valid()
      reads this, buf, buf.buf
    {
      && buf.Valid() && stream.rest == buf.Contents()
      && stream.status == Open && Settled(ANY_PACKET, stream)
      && handled == Parsed(stream.handled)
    }

    constructor ()
      ensures Valid() && fresh(buf) && fresh(buf.buf) && stream == START
    {
      buf := new RingBuffer(1024);
      handled, stream := [], START;
    }

    /** Takes all bytes, growing the ring whenever it is full. */
    method ReceiveAll(incoming: seq<byte>)
      requires buf.Valid()
      modifies buf, buf.buf
      ensures buf.Valid() && (buf.buf == old(buf.buf) || fresh(buf.buf))
      ensures buf.Contents() == old(buf.Contents()) + incoming
    {
      var taken := 0;
      ghost var before := buf.Contents();
      assert before + incoming[..0] == before;
      while taken < |incoming|
        invariant buf.Valid() && (buf.buf == old(buf.buf) || fresh(buf.buf)) && taken <= |incoming|
        invariant buf.Contents() == before + incoming[..taken]
      {
        var rest := incoming[taken..];
        var actrcv := ReceiveSome(rest);
        assert before + incoming[..taken] + rest[..actrcv] == before + incoming[..taken + actrcv] by {
          assert incoming[..taken] + rest[..actrcv] == incoming[..taken + actrcv];
        }
        taken := taken + actrcv;
      }
      assert incoming[..taken] == incoming;
    }

    /** One recv into the next part of the ring. */
    method ReceiveSome(rest: seq<byte>) returns (actrcv: nat)
      requires buf.Valid() && rest != []
      modifies buf, buf.buf
      ensures buf.Valid() && (buf.buf == old(buf.buf) || fresh(buf.buf))
      ensures 0 < actrcv <= |rest| && buf.Contents() == old(buf.Contents()) + rest[..actrcv]
    {
      var wantlen := buf.NextPartLen();
      if wantlen <= 0 {
        buf.Grow(buf.buf.Length + 16 * 1024);
        wantlen := buf.NextPartLen();
      }
      actrcv := Min(|rest|, wantlen);
      buf.Receive(rest[..actrcv], wantlen);
    }

    /** Reads everything and handles every whole packet.  A length below the
        size of the head makes the body resize to a negative size: the call
        then ends in an exception, exactly when the stream has a bad length. */
    method HandleRead(incoming: seq<byte>) returns (crashed: bool)
      requires Valid()
      modifies this, buf, buf.buf
      ensures stream == Feed(ANY_PACKET, AcceptAll(), old(stream), incoming)
      ensures crashed <==> stream.status == BadLength
      ensures !crashed ==> Valid()
      ensures handled == Parsed(stream.handled)
      ensures buf == old(buf) && (buf.buf == old(buf.buf) || fresh(buf.buf))
    {
      ghost var end := Feed(ANY_PACKET, AcceptAll(), stream, incoming);
      ghost var packets := stream.handled;
      ReceiveAll(incoming);
      ExtractIsDone(ANY_PACKET, AcceptAll(), packets, buf.Contents());
      crashed := false;
      var more := true;
      while more
        invariant buf == old(buf) && buf.Valid() && (buf.buf == old(buf.buf) || fresh(buf.buf))
        invariant handled == Parsed(packets) && Cutting(packets, end, more, crashed)
        decreases more, buf.size
      {
        more, crashed, packets := HandOnOne(packets, end);
      }
      stream := end;
    }

    /** Cutting packets off comes to the same end as from the start; without more
        it is there, and crashed tells of a bad length. */
    ghost predicate Cutting(packets: seq<seq<byte>>, end: Stream, more: bool, crashed: bool)
      requires buf.Valid()
      reads this`buf, buf, buf.buf
    {
      if more then Extract(ANY_PACKET, AcceptAll(), packets, buf.Contents()) == end && !crashed
      else end == Stream(packets, buf.Contents(), if crashed then BadLength else Open)
    }

    /** One message, if it is there. */
    method HandOnOne(ghost packets: seq<seq<byte>>, ghost end: Stream)
      returns (more: bool, crashed: bool, ghost packets': seq<seq<byte>>)
      requires buf.Valid() && handled == Parsed(packets) && Cutting(packets, end, true, false)
      modifies this`handled, buf
      ensures buf.Valid() && buf.buf == old(buf.buf)
      ensures handled == Parsed(packets') && Cutting(packets', end, more, crashed)
      ensures more ==> buf.size < old(buf.size)
    {
      more, crashed, packets' := false, false, packets;
      var h := buf.Peek(HEAD_SIZE);
      if |h| < HEAD_SIZE {
        return;
      }
      assert h[4..8] == buf.Contents()[4..8];
      var len := HeadLen(h);
      if buf.size < len {
        return;
      }
      if len < HEAD_SIZE {
        crashed := true;
        return;
      }
      ghost var packet := buf.Contents()[..len];
      var m := TakePacket(len);
      ParsedSnoc(packets, packet);
      more, packets' := true, packets + [packet];
      handled := handled + [m];
    }

    /** Reads the head and then the body. */
    method TakePacket(len: nat) returns (m: Message)
      requires buf.Valid() && HEAD_SIZE <= len <= buf.size
      modifies buf
      ensures buf.Valid() && buf.buf == old(buf.buf) && buf.size == old(buf.size) - len
      ensures m == ParsePacket(old(buf.Contents())[..len]) && buf.Contents() == old(buf.Contents())[len..]
    {
      ghost var all := buf.Contents();
      var head := buf.Read(HEAD_SIZE);
      ghost var rest := buf.Contents();
      var body := buf.Read(len - HEAD_SIZE);
      TwoReads(all, rest, len);
      m := Message(HostValue(head[0..4]), HeadCmd(head), body);
    }

    static lemma {:induction false} TwoReads(all: seq<byte>, rest: seq<byte>, len: nat)
      requires HEAD_SIZE <= len <= |all| && rest == all[HEAD_SIZE..]
      ensures rest[len - HEAD_SIZE..] == all[len..] && rest[..len - HEAD_SIZE] == all[..len][HEAD_SIZE..]
      ensures all[..HEAD_SIZE][0..4] == all[..len][0..4] && all[..HEAD_SIZE][8..12] == all[..len][8..12]
    {
    }
  }

  /** The messages of the packets handed on. */
  function Parsed(packets: seq<seq<byte>>): seq<Message> {
    if packets == [] then []
    else
      var last := packets[|packets| - 1];
      Parsed(packets[..|packets| - 1]) + if |last| >= HEAD_SIZE then [ParsePacket(last)] else []
  }

  lemma {:induction false} ParsedSnoc(packets: seq<seq<byte>>, packet: seq<byte>)
    requires |packet| >= HEAD_SIZE
    ensures Parsed(packets + [packet]) == Parsed(packets) + [ParsePacket(packet)]
  {
    assert (packets + [packet])[..|packets|] == packets;
  }
}

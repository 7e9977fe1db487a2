/** The two halves of efnfw/net/ef_connection.cpp, each on a LoopBuf of its own:
    receiving bytes and cutting packets out of them, and sending messages in
    whatever pieces the socket takes. */
module Connection {
  import opened Bytes
  import opened Framing
  import opened LoopBuf

  // ---- receiving ----

  class Receiver {
    const limit: int32
    const accepts: seq<seq<byte>> -> bool
    const buf: LoopBuf
    var handled: seq<seq<byte>>
    ghost var stream: Stream

    ghost predicate Sound()
      reads buf, buf.repr
    {
      this !in buf.repr && buf.Valid()
    }

    /** The buffer holds what the stream has left over. */
    ghost predicate Valid()
      reads this, buf, buf.repr
    {
      && Sound()
      && stream.handled == handled && stream.rest == buf.Contents() && Settled(limit, stream)
    }

    constructor (limit: int32, accepts: seq<seq<byte>> -> bool)
      ensures Valid() && fresh(buf) && fresh(buf.repr) && stream == START
      ensures this.limit == limit && this.accepts == accepts
    {
      this.limit, this.accepts := limit, accepts;
      buf := new LoopBuf();
      handled, stream := [], START;
    }

    method CheckPackLen() returns (len: int)
      requires buf.Valid()
      ensures len == CheckLen(limit, buf.Contents())
    {
      if buf.size < HEAD_SIZE {
        return 0;
      }
      var h := buf.Peek(HEAD_SIZE);
      assert h[4..8] == buf.Contents()[4..8];
      len := HeadLen(h);
      if len < HEAD_SIZE || len > limit {
        return -1;
      }
      if len <= buf.size {
        return len;
      }
      return 0;
    }

    /** One read event.  The socket has `incoming` for us, or is closed; as much
        as fits the free frame is taken and every whole packet handed on. */
    method HandleRead(incoming: seq<byte>, closed: bool) returns (ret: int, taken: nat)
      requires Valid() && stream.status == Open
      modifies this, buf, buf.repr
      ensures Valid() && fresh(buf.repr - old(buf.repr))
      ensures closed || incoming == [] ==> ret < 0 && taken == 0 && stream == old(stream)
      ensures taken <= |incoming| && stream == Feed(limit, accepts, old(stream), incoming[..taken])
      ensures !closed && incoming != [] ==> 0 < taken && (ret >= 0 <==> stream.status == Open)
    {
      taken := 0;
      FeedNothing(limit, accepts, stream, incoming);
      var wantlen := MakeRoom();
      if closed || incoming == [] {
        return -1, 0;
      }
      var actrcv := Min(|incoming|, wantlen);
      taken := actrcv;
      var chunk := incoming[..actrcv];
      buf.Receive(chunk);
      ret := HandOnPackets(chunk);
    }

    /** Room for at least one byte in the free frame. */
    method MakeRoom() returns (wantlen: nat)
      requires Valid()
      modifies buf, buf.repr
      ensures Valid() && fresh(buf.repr - old(buf.repr))
      ensures 0 < wantlen == buf.wpos.FreeSize()
    {
      wantlen := buf.FreeFrameLen();
      if wantlen <= 0 {
        var _ := buf.Extend(16 * 1024);
        wantlen := buf.FreeFrameLen();
      }
    }

    static lemma {:induction false} FeedNothing(limit: int32, accepts: seq<seq<byte>> -> bool, s: Stream,
                                                incoming: seq<byte>)
      requires Settled(limit, s)
      ensures Feed(limit, accepts, s, incoming[..0]) == s
    {
      if s.status == Open {
        assert s.rest + incoming[..0] == s.rest;
      }
    }

    /** The packet loop, after chunk went to the end of the buffer. */
    method HandOnPackets(ghost chunk: seq<byte>) returns (ret: int)
      requires Sound() && stream.status == Open && stream.handled == handled
      requires buf.Contents() == stream.rest + chunk
      modifies this, buf, buf.repr
      ensures Valid() && buf.repr == old(buf.repr)
      ensures stream == Feed(limit, accepts, old(stream), chunk)
      ensures ret >= 0 <==> stream.status == Open
    {
      ghost var end := Feed(limit, accepts, stream, chunk);
      ExtractIsDone(limit, accepts, handled, buf.Contents());
      while true
        invariant Cutting(end) && buf.repr == old(buf.repr)
        decreases buf.size
      {
        ret := HandOnOne(end);
        if ret <= 0 {
          break;
        }
      }
      stream := end;
    }

    /** Cutting packets off comes to the same end as from the start. */
    ghost predicate Cutting(end: Stream)
      reads this`handled, buf, buf.repr
    {
      && Sound()
      && Extract(limit, accepts, handled, buf.Contents()) == end
    }

    /** One packet: positive when it was handed on and accepted, zero when none is whole yet. */
    method HandOnOne(ghost end: Stream) returns (ret: int)
      requires Cutting(end)
      modifies this`handled, buf, buf.repr
      ensures Sound() && buf.repr == old(buf.repr)
      ensures ret > 0 ==> Cutting(end) && buf.size < old(buf.size)
      ensures ret <= 0 ==>
                end.handled == handled && end.rest == buf.Contents() && (end.status == Open <==> ret == 0)
    {
      ret := CheckPackLen();
      if ret > 0 {
        var req := buf.Read(ret);
        handled := handled + [req];
        if !accepts(handled) {
          ret := -1;
        }
      }
    }
  }

  /** Read events until all of incoming is taken or the connection fails; event k
      finds 1 + arrives(k) more bytes, or all that is left.  What is handed on
      depends on the bytes alone, not on how arrivals and frames cut them. */
  method ReceiveAll(limit: int32, accepts: seq<seq<byte>> -> bool, incoming: seq<byte>, arrives: nat -> nat)
    returns (handled: seq<seq<byte>>, open: bool, rest: seq<byte>)
    ensures var whole := Extract(limit, accepts, [], incoming);
            handled == whole.handled && (open <==> whole.status == Open) && (open ==> rest == whole.rest)
  {
    var r := new Receiver(limit, accepts);
    var taken, k := 0, 0;
    open := true;
    assert incoming[..0] == [];
    while taken < |incoming| && open
      invariant r.Valid() && fresh(r) && fresh(r.buf) && fresh(r.buf.repr)
      invariant r.limit == limit && r.accepts == accepts
      invariant (open <==> r.stream.status == Open) && ReadSoFar(limit, accepts, incoming, taken, r.stream)
      decreases |incoming| - taken, open
    {
      taken, open := ReadOnce(r, incoming, taken, Min(taken + 1 + arrives(k), |incoming|));
      k := k + 1;
    }
    AllRead(limit, accepts, incoming, taken, r.stream);
    handled := r.handled;
    rest := r.buf.Peek(r.buf.size);
    assert r.buf.Contents()[..r.buf.size] == r.buf.Contents();
  }

  /** One read event, when the bytes up to `until` have come. */
  method ReadOnce(r: Receiver, incoming: seq<byte>, taken: nat, until: nat) returns (taken': nat, open: bool)
    requires r.Valid() && r.stream.status == Open && taken < until <= |incoming|
    requires ReadSoFar(r.limit, r.accepts, incoming, taken, r.stream)
    modifies r, r.buf, r.buf.repr
    ensures r.Valid() && fresh(r.buf.repr - old(r.buf.repr)) && taken' > taken
    ensures ReadSoFar(r.limit, r.accepts, incoming, taken', r.stream) && (open <==> r.stream.status == Open)
  {
    ghost var before := r.stream;
    var left := incoming[taken..until];
    var ret, n := r.HandleRead(left, false);
    OneMoreRead(r.limit, r.accepts, incoming, taken, until, left, n, before, r.stream);
    taken' := taken + n;
    open := ret >= 0;
  }

  /** The stream stands where the bytes taken lead in one go. */
  ghost predicate ReadSoFar(limit: int32, accepts: seq<seq<byte>> -> bool, incoming: seq<byte>, taken: nat, s: Stream) {
    taken <= |incoming| && SameOutcome(s, Feed(limit, accepts, START, incoming[..taken]))
  }

  lemma {:induction false} OneMoreRead(limit: int32, accepts: seq<seq<byte>> -> bool, incoming: seq<byte>,
                                       taken: nat, until: nat, left: seq<byte>, n: nat, s: Stream, s': Stream)
    requires s.status == Open && ReadSoFar(limit, accepts, incoming, taken, s)
    requires taken <= until <= |incoming| && left == incoming[taken..until] && n <= |left|
    requires s' == Feed(limit, accepts, s, left[..n])
    ensures ReadSoFar(limit, accepts, incoming, taken + n, s')
  {
    FeedTwice(limit, accepts, START, incoming[..taken], left[..n]);
    assert incoming[..taken] + left[..n] == incoming[..taken + n];
    assert s == Feed(limit, accepts, START, incoming[..taken]);
  }

  lemma {:induction false} AllRead(limit: int32, accepts: seq<seq<byte>> -> bool, incoming: seq<byte>,
                                   taken: nat, s: Stream)
    requires ReadSoFar(limit, accepts, incoming, taken, s) && (s.status == Open ==> taken == |incoming|)
    ensures SameOutcome(s, Extract(limit, accepts, [], incoming))
  {
    FeedTwice(limit, accepts, START, incoming[..taken], incoming[taken..]);
    assert incoming[..taken] + incoming[taken..] == incoming;
    assert [] + incoming == incoming;
  }

  // ---- sending ----

  /** The events a device is registered for. */
  datatype Interest = Interest(read: bool, write: bool)

  /** The pieces of the send buffer, the number of the next send, and whether
      the last one failed. */
  datatype Sending = Sending(r: Reading, next: nat, failed: bool)

  /** While anything is buffered, no frame before the write frame is empty. */
  ghost predicate Flowing(ds: seq<seq<byte>>, w: nat) {
    Flat(ds) == [] || NoneEmpty(ds, 0, w)
  }

  /** Then the first frame has bytes to send. */
  lemma {:induction false} FlowingIsLive(ds: seq<seq<byte>>, w: nat)
    requires EmptyAfter(ds, w) && Flowing(ds, w) && Flat(ds) != []
    ensures ds[0] != []
  {
    if ds[0] == [] {
      FlatOfEmpties(ds);
    }
  }

  lemma {:induction false} BytesBehindEmpty(ds: seq<seq<byte>>, w: nat)
    requires EmptyAfter(ds, w) && ds[0] == [] && Flat(ds) != []
    ensures w > 0
  {
    if w == 0 {
      FlatOfEmpties(ds);
    }
  }

  /** Taking less than the first frame, or nothing, leaves the rest of it there. */
  lemma {:induction false} LeftInFirst(r: Reading)
    requires EmptyAfter(r.datas, r.w) && r.want <= |r.datas[0]| <= |Flat(r.datas)|
    requires r.want < |r.datas[0]| || r.want == 0
    ensures |Drain(r).datas[0]| == |r.datas[0]| - r.want
  {
    if r.want > 0 {
      LoopBuf.DrainDone(Round(r));
    }
  }

  /** Taking no more than the first frame keeps the flow. */
  lemma {:induction false} DrainKeepsFlowing(r: Reading)
    requires EmptyAfter(r.datas, r.w) && Flowing(r.datas, r.w) && r.want <= |r.datas[0]| <= |Flat(r.datas)|
    ensures var r' := Drain(r); Flowing(r'.datas, r'.w)
  {
    if r.want > 0 {
      RoundTakesFront(r);
      var r1 := Round(r);
      LoopBuf.DrainDone(r1);
      if Flat(r1.datas) != [] && r1.datas[0] == [] {
        FlatOfEmpties(r1.datas);
      }
    }
  }

  lemma {:induction false} FirstInFlat(ds: seq<seq<byte>>)
    requires ds != []
    ensures |ds[0]| <= |Flat(ds)|
  {
  }

  /** Queued bytes stop the flow exactly when they go to a later frame than an
      empty first one. */
  lemma {:induction false} AppendedFlows(before: seq<seq<byte>>, w: nat, free: int, grown: bool, bytes: seq<byte>,
                                         after: seq<seq<byte>>, w': nat)
    requires Appended(before, w, free, grown, bytes, after, w') && EmptyAfter(before, w) && EmptyAfter(after, w')
    requires before[0] == [] || Flowing(before, w)
    requires before[0] == [] && w == 0 ==> free > 0
    ensures after[0] == [] <==> before[0] == [] && (w > 0 || bytes == [])
    ensures after[0] == [] || Flowing(after, w')
  {
    if w > 0 {
      assert after[0] == after[..w][0] == before[..w][0];
      assert forall i :: 0 <= i < w ==> after[i] == after[..w][i] == before[..w][i] == before[i];
    } else if before[0] == [] {
      assert after[0] == bytes[..Min(|bytes|, free)];
    }
    if before[0] != [] && Flat(before) == [] {
      FirstInFlat(before);
    }
  }

  class Sender {
    const buf: LoopBuf
    var noti: Interest
    var safeClosing: bool
    var recycled: bool

    /** The answers of the k-th send of n bytes and of the k-th epoll_ctl, and how
        many of each there have been. */
    const answer: (nat, nat) -> int
    const registers: nat -> bool
    var asked: nat
    var attempts: nat

    /** All bytes given to the socket, and all messages accepted. */
    ghost var sent: seq<byte>
    ghost var accepted: seq<byte>

    /** Whether a buffer write came up short, and whether an epoll_ctl failed. */
    ghost var lost: bool
    ghost var unregistered: bool

    /** A send buffer whose first frame, if it is not empty, leads to the rest. */
    ghost predicate Sound()
      reads buf, buf.repr
    {
      && this !in buf.repr && buf.Valid()
      && (buf.datas[0] == [] || Flowing(buf.datas, buf.w))
    }

    /** What was accepted is what was sent and then what is buffered, and
        buffered bytes wait for a write event. */
    ghost predicate Valid()
      reads this, buf, buf.repr
    {
      && Sound()
      && (!lost && !unregistered ==> sent + buf.Contents() == accepted)
      && (!unregistered ==> buf.size > 0 ==> noti.write)
    }

    /** Bytes wait for a write event behind an empty first frame. */
    ghost predicate Stalled()
      requires buf.Valid()
      reads this`noti, buf, buf.repr
    {
      buf.size > 0 && buf.datas[0] == [] && noti.write
    }

    /** Unless registering fails, the sender comes to be stalled exactly when bytes
        are queued in an empty buffer whose write frame is not the first; and a
        stalled sender stays so and sends nothing. */
    twostate predicate StallsOnlyBy(queueing: bool)
      requires old(buf.Valid()) && buf.Valid()
      reads this, buf, buf.repr
    {
      && (!old(Stalled()) && !old(unregistered) && !unregistered ==>
            (Stalled() <==> queueing && old(buf.size) == 0 && old(buf.w) > 0))
      && (old(Stalled()) ==> Stalled() && sent == old(sent) && asked == old(asked) && recycled == old(recycled))
    }

    constructor (answer: (nat, nat) -> int, registers: nat -> bool)
      ensures Valid() && fresh(buf) && fresh(buf.repr) && !recycled && sent == accepted == []
      ensures !lost && !unregistered && asked == attempts == 0
      ensures this.answer == answer && this.registers == registers
      ensures noti == Interest(true, false) && !safeClosing
      ensures buf.datas == [[]] && buf.w == 0 && buf.wpos.FreeSize() == buf.RoomAhead() == NewCapacity(1024)
    {
      buf := new LoopBuf();
      noti, safeClosing, recycled := Interest(true, false), false, false;
      this.answer, this.registers, asked, attempts := answer, registers, 0, 0;
      sent, accepted, lost, unregistered := [], [], false, false;
      new;
      assert EmptyAfter(buf.datas, buf.w);
    }

    /** What the k-th send takes of n bytes: some, none for now, or an error. */
    function Taken(k: nat, n: nat): (r: int)
      ensures -1 <= r <= n
    {
      var r := answer(k, n);
      if 0 <= r <= n then r else -1
    }

    /** A send of n bytes has failed. */
    ghost predicate Refuses(n: nat)
      reads this`asked
    {
      exists k: nat :: k < asked && Taken(k, n) < 0
    }

    /** What sending comes to from the k-th send on: the first frame is offered
        and what was taken is dropped, as long as whole frames go. */
    ghost function Sends(k: nat, r: Reading): (e: Sending)
      requires EmptyAfter(r.datas, r.w)
      ensures EmptyAfter(e.r.datas, e.r.w) && e.next > k
      decreases |Flat(r.datas)|
    {
      FirstInFlat(r.datas);
      var n := |r.datas[0]|;
      var t := Taken(k, n);
      if t < 0 then Sending(r, k + 1, true)
      else
        var r' := Drain(r.(want := t));
        if 0 < t == n then Sends(k + 1, r') else Sending(r', k + 1, false)
    }

    /** The same for doSend, which tries nothing while the first frame is empty. */
    ghost function Tries(k: nat, r: Reading): Sending
      requires EmptyAfter(r.datas, r.w)
    {
      if r.datas[0] == [] then Sending(r, k, false) else Sends(k, r)
    }

    /** Why sending stopped: the last send, number j of n bytes, failed, took
        nothing, or left something of its frame. */
    lemma {:induction false} SendsStopShort(k: nat, r: Reading) returns (j: nat, n: nat)
      requires EmptyAfter(r.datas, r.w)
      ensures var e, t := Sends(k, r), Taken(j, n);
              && e.next == j + 1 && (e.failed <==> t < 0)
              && |e.r.datas[0]| == n - (if t > 0 then t else 0) && (t <= 0 || t < n)
      decreases |Flat(r.datas)|
    {
      FirstInFlat(r.datas);
      j, n := k, |r.datas[0]|;
      var t := Taken(k, n);
      if 0 < t == n {
        j, n := SendsStopShort(k + 1, Drain(r.(want := t)));
      } else if t >= 0 {
        LeftInFirst(r.(want := t));
      }
    }

    /** What flowed still flows. */
    lemma {:induction false} SendsKeepFlowing(k: nat, r: Reading)
      requires EmptyAfter(r.datas, r.w) && Flowing(r.datas, r.w)
      ensures var e := Sends(k, r); Flowing(e.r.datas, e.r.w)
      decreases |Flat(r.datas)|
    {
      FirstInFlat(r.datas);
      var t := Taken(k, |r.datas[0]|);
      if t >= 0 {
        DrainKeepsFlowing(r.(want := t));
        if 0 < t == |r.datas[0]| {
          SendsKeepFlowing(k + 1, Drain(r.(want := t)));
        }
      }
    }

    /** So sending never ends before an empty frame with bytes behind it, unless
        it began there. */
    lemma {:induction false} TriesNeverStall(k: nat, r: Reading)
      requires EmptyAfter(r.datas, r.w) && (r.datas[0] == [] || Flowing(r.datas, r.w))
      ensures var ds := Tries(k, r).r.datas;
              ds[0] == [] && Flat(ds) != [] <==> r.datas[0] == [] && Flat(r.datas) != []
    {
      if r.datas[0] != [] {
        SendsKeepFlowing(k, r);
        var e := Sends(k, r);
        if Flat(e.r.datas) != [] {
          FlowingIsLive(e.r.datas, e.r.w);
        }
      }
    }

    /** A socket that takes whatever it is offered empties the buffer, unless an
        empty frame is in the way from the start. */
    lemma {:induction false} TriesSendAll(k: nat, r: Reading)
      requires EmptyAfter(r.datas, r.w) && (r.datas[0] == [] || Flowing(r.datas, r.w)) && TakesAll()
      ensures var e := Tries(k, r);
              !e.failed && (Flat(e.r.datas) == [] <==> r.datas[0] != [] || Flat(r.datas) == [])
    {
      if r.datas[0] != [] {
        FirstInFlat(r.datas);
        SendsAll(k, r);
      }
    }

    ghost predicate TakesAll() {
      forall k, n: nat :: Taken(k, n) == n
    }

    lemma {:induction false} SendsAll(k: nat, r: Reading)
      requires EmptyAfter(r.datas, r.w) && Flowing(r.datas, r.w) && TakesAll()
      ensures var e := Sends(k, r); !e.failed && Flat(e.r.datas) == []
      decreases |Flat(r.datas)|
    {
      FirstInFlat(r.datas);
      var n := |r.datas[0]|;
      assert Taken(k, n) == n;
      DrainKeepsFlowing(r.(want := n));
      var r' := Drain(r.(want := n));
      if n > 0 {
        SendsAll(k + 1, r');
      } else if Flat(r.datas) != [] {
        FlowingIsLive(r.datas, r.w);
      }
    }

    /** Two frames that the socket takes whole. */
    lemma {:induction false} SendsTwoFrames(k: nat, a: seq<byte>, b: seq<byte>)
      requires a != [] && Taken(k, |a|) == |a| && b != [] && Taken(k + 1, |b|) == |b| && Taken(k + 2, 0) == 0
      ensures EmptyAfter([a, b], 1)
      ensures Sends(k, Reading([a, b], 1, 0)) == Sending(Reading([[], []], 1, 0), k + 3, false)
    {
      DrainFirstFrame(a, b, 1);
      DrainFirstFrame(b, [], 0);
      var r, r1, r2 := Reading([a, b], 1, 0), Reading([b, []], 0, 0), Reading([[], []], 1, 0);
      LoopBuf.DrainDone(r2);
      assert Sends(k + 2, r2) == Sending(r2, k + 3, false);
      assert Sends(k + 1, r1) == Sends(k + 2, r2);
    }

    static lemma {:induction false} DrainFirstFrame(a: seq<byte>, b: seq<byte>, w: nat)
      requires w <= 1 && a != [] && (w == 0 ==> b == [])
      ensures EmptyAfter([a, b], w) && |a| <= |Flat([a, b])|
      ensures Drain(Reading([a, b], w, |a|)) == Reading([b, []], 1 - w, 0)
    {
      TwoFrames(a, b);
      var r := Reading([a, b], w, |a|);
      assert Round(r) == Reading([b, []], 1 - w, 0);
      RoundTakesFront(r);
      LoopBuf.DrainDone(Round(r));
    }

    /** send(), and send_ around it. */
    method SocketSend(bytes: seq<byte>) returns (ret: int)
      modifies this`sent, this`asked
      ensures ret == Taken(old(asked), |bytes|) && asked == old(asked) + 1
      ensures sent == old(sent) + bytes[..if ret > 0 then ret else 0]
    {
      ret := Taken(asked, |bytes|);
      asked := asked + 1;
      sent := sent + bytes[..if ret > 0 then ret else 0];
    }

    /** One epoll_ctl: the registration changes unless it fails. */
    twostate predicate Registered(interest: Interest)
      reads this`noti, this`unregistered, this`attempts
    {
      && attempts == old(attempts) + 1
      && (unregistered <==> old(unregistered) || !registers(old(attempts)))
      && noti == if registers(old(attempts)) then interest else old(noti)
    }

    /** No epoll_ctl. */
    twostate predicate SameInterest()
      reads this`noti, this`unregistered, this`attempts
    {
      attempts == old(attempts) && unregistered == old(unregistered) && noti == old(noti)
    }

    /** Device::modifyNotify. */
    method ModifyNotify(interest: Interest) returns (ret: int)
      modifies this`noti, this`unregistered, this`attempts
      ensures Registered(interest)
    {
      ret := if registers(attempts) then 0 else -1;
      if ret >= 0 {
        noti := interest;
      } else {
        unregistered := true;
      }
      attempts := attempts + 1;
    }

    /** `rest` went to the send buffer.  Now the first frame is empty exactly
        when it was and is not the one written to. */
    twostate predicate Queued(rest: seq<byte>)
      requires old(buf.Valid()) && buf.Valid()
      reads this`lost, buf, buf.repr
    {
      if rest == [] then
        lost == old(lost) && buf.datas == old(buf.datas) && buf.w == old(buf.w) && buf.size == old(buf.size)
      else
        && (lost <==> old(lost) || old(buf.Storable(|rest|)) < |rest|)
        && (|rest| <= SAFE_MESSAGE ==> lost == old(lost))
        && Appended(old(buf.datas), old(buf.w), old(buf.wpos.FreeSize()), old(buf.Grows(|rest|)), rest,
                    buf.datas, buf.w)
        && (buf.datas[0] == [] <==> old(buf.datas[0]) == [] && old(buf.w) > 0)
        && buf.size > old(buf.size)
    }

    /** autoResizeWrite on the send buffer. */
    method Enqueue(bytes: seq<byte>)
      requires Sound()
      modifies this`lost, buf, buf.repr
      ensures Sound() && fresh(buf.repr - old(buf.repr))
      ensures Queued(bytes)
      ensures buf.Contents() == old(buf.Contents()) + bytes[..old(buf.Storable(|bytes|))]
      ensures !lost ==> buf.Contents() == old(buf.Contents()) + bytes
    {
      buf.WritePos();
      StorableIsEnough(|bytes|, buf.wpos.Full(), buf.RoomAhead());
      if |bytes| <= SAFE_MESSAGE {
        SafeMessagesFit(|bytes|, buf.wpos.Full(), buf.RoomAhead());
      }
      ghost var grows := buf.Grows(|bytes|);
      var claimed, stored := buf.AutoResizeWrite(bytes);
      lost := lost || stored < |bytes|;
      assert stored == |bytes| ==> bytes[..stored] == bytes;
      AppendedFlows(old(buf.datas), old(buf.w), old(buf.wpos.FreeSize()), grows, bytes, buf.datas, buf.w);
    }

    /** Accepts a message, unless the socket fails.  With write interest the
        message only queues up, so that it cannot overtake buffered bytes. */
    method SendMessage(msg: seq<byte>) returns (ret: int)
      requires Valid()
      modifies this`sent, this`accepted, this`noti, this`lost, this`unregistered, this`asked, this`attempts,
               buf, buf.repr
      ensures Valid() && fresh(buf.repr - old(buf.repr))
      ensures accepted == if ret >= 0 then old(accepted) + msg else old(accepted)
      ensures old(noti.write) ==> ret == 0 && asked == old(asked) && sent == old(sent)
      ensures !old(noti.write) ==>
                asked == old(asked) + 1 && ret == Taken(old(asked), |msg|)
                && sent == old(sent) + msg[..if ret > 0 then ret else 0]
      ensures if !old(noti.write) && 0 <= ret < |msg| then Registered(Interest(true, true)) else SameInterest()
      ensures Queued(if old(noti.write) then msg else if 0 <= ret < |msg| then msg[ret..] else [])
      ensures StallsOnlyBy(0 <= ret < |msg|)
    {
      if buf.datas[0] == [] && buf.Contents() != [] {
        BytesBehindEmpty(buf.datas, buf.w);
      }
      if noti.write {
        QueueMessage(msg);
        return 0;
      }
      ret := SendDirectly(msg);
    }

    /** sendMessage with write interest. */
    method QueueMessage(msg: seq<byte>)
      requires Valid() && noti.write
      modifies this`accepted, this`lost, buf, buf.repr
      ensures Valid() && fresh(buf.repr - old(buf.repr)) && accepted == old(accepted) + msg && Queued(msg)
    {
      assert sent + (buf.Contents() + msg) == sent + buf.Contents() + msg;
      Enqueue(msg);
      accepted := accepted + msg;
    }

    /** sendMessage without write interest: then nothing is queued yet. */
    method SendDirectly(msg: seq<byte>) returns (ret: int)
      requires Valid() && !noti.write
      modifies this`sent, this`accepted, this`noti, this`lost, this`unregistered, this`asked, this`attempts,
               buf, buf.repr
      ensures Valid() && fresh(buf.repr - old(buf.repr))
      ensures accepted == if ret >= 0 then old(accepted) + msg else old(accepted)
      ensures asked == old(asked) + 1 && ret == Taken(old(asked), |msg|)
      ensures sent == old(sent) + msg[..if ret > 0 then ret else 0]
      ensures if 0 <= ret < |msg| then Registered(Interest(true, true)) else SameInterest()
      ensures Queued(if 0 <= ret < |msg| then msg[ret..] else [])
    {
      ghost var was := sent;
      ret := SocketSend(msg);
      if ret >= 0 {
        SentFront(was, msg, msg, ret);
        AcceptSent(msg, ret);
      }
    }

    /** The socket took the first n bytes of msg. */
    method AcceptSent(msg: seq<byte>, n: nat)
      requires Sound() && n <= |msg|
      requires !lost && !unregistered ==> sent + msg[n..] == accepted + msg
      requires !unregistered ==> buf.Contents() == []
      modifies this`accepted, this`noti, this`lost, this`unregistered, this`attempts, buf, buf.repr
      ensures Valid() && fresh(buf.repr - old(buf.repr)) && accepted == old(accepted) + msg
      ensures if n < |msg| then Registered(Interest(true, true)) else SameInterest()
      ensures Queued(msg[n..])
    {
      accepted := accepted + msg;
      assert sent + [] == sent;
      if n < |msg| {
        QueueRest(msg[n..]);
      }
    }

    /** What the socket did not take waits for a write event. */
    method QueueRest(rest: seq<byte>)
      requires Sound()
      requires !lost && !unregistered ==> sent + rest == accepted && buf.Contents() == []
      modifies this`noti, this`lost, this`unregistered, this`attempts, buf, buf.repr
      ensures Valid() && fresh(buf.repr - old(buf.repr))
      ensures Registered(Interest(true, true))
      ensures Queued(rest)
    {
      Enqueue(rest);
      var _ := ModifyNotify(Interest(true, true));
    }

    /** Sends frame by frame until the socket takes less than a whole frame. */
    method DoSend() returns (sendlen: int)
      requires Valid()
      modifies this`sent, this`asked, buf, buf.repr
      ensures Valid() && buf.repr == old(buf.repr)
      ensures sent + buf.Contents() == old(sent + buf.Contents())
      ensures Sending(Reading(buf.datas, buf.w, 0), asked, sendlen < 0)
              == Tries(old(asked), Reading(old(buf.datas), old(buf.w), 0))
      ensures old(buf.datas[0]) == [] ==> sent == old(sent)
      ensures sendlen >= -1 && (sendlen >= 0 ==> sendlen == |sent| - |old(sent)|)
      ensures StallsOnlyBy(false)
    {
      TriesNeverStall(asked, Reading(buf.datas, buf.w, 0));
      ghost var all, before := sent + buf.Contents(), sent;
      ghost var end := Sends(asked, Reading(buf.datas, buf.w, 0));
      sendlen := 0;
      var first := buf.FirstFrame();
      if |first| == 0 {
        return;
      }
      var more := true;
      while more
        invariant Valid() && buf.repr == old(buf.repr)
        invariant sent + buf.Contents() == all && sendlen == |sent| - |before| >= 0
        invariant Going(more, end)
        decreases more, buf.size
      {
        var ret;
        ret, more := SendFirstFrame(end);
        if ret < 0 {
          return ret;
        }
        sendlen := sendlen + ret;
      }
    }

    /** Sending comes to the same end as from the start; without more it is there. */
    ghost predicate Going(more: bool, end: Sending)
      requires buf.Valid()
      reads this`asked, buf, buf.repr
    {
      var r := Reading(buf.datas, buf.w, 0);
      if more then Sends(asked, r) == end else Sending(r, asked, false) == end
    }

    /** One round of doSend. */
    method SendFirstFrame(ghost end: Sending) returns (ret: int, more: bool)
      requires Valid() && Going(true, end)
      modifies this`sent, this`asked, buf, buf.repr
      ensures Valid() && buf.repr == old(buf.repr)
      ensures ret == Taken(old(asked), |old(buf.datas[0])|) && asked == old(asked) + 1
      ensures buf.size == old(buf.size) - (if ret > 0 then ret else 0)
      ensures |sent| == |old(sent)| + (if ret > 0 then ret else 0)
      ensures sent + buf.Contents() == old(sent + buf.Contents())
      ensures more <==> ret > 0 && ret == |old(buf.datas[0])|
      ensures if ret < 0 then Sending(Reading(buf.datas, buf.w, 0), asked, true) == end else Going(more, end)
    {
      ghost var queue, was := buf.Contents(), sent;
      var first := buf.FirstFrame();
      ret := SocketSend(first);
      more := ret > 0 && ret == |first|;
      SentFront(was, queue, first, if ret > 0 then ret else 0);
      if ret >= 0 {
        DropSent(ret);
      }
    }

    /** m_send_buf.read(NULL, n), for at most the first frame. */
    method DropSent(n: nat)
      requires Sound() && n <= |buf.datas[0]| <= buf.size
      modifies buf, buf.repr
      ensures Sound() && buf.repr == old(buf.repr) && buf.size == old(buf.size) - n
      ensures buf.Contents() == old(buf.Contents())[n..]
      ensures Reading(buf.datas, buf.w, 0) == Drain(Reading(old(buf.datas), old(buf.w), n))
    {
      ghost var r := Reading(buf.datas, buf.w, n);
      if buf.datas[0] != [] {
        DrainKeepsFlowing(r);
      }
      var _ := buf.Read(n);
    }

    static lemma {:induction false} SentFront(was: seq<byte>, queue: seq<byte>, first: seq<byte>, n: nat)
      requires first <= queue && n <= |first|
      ensures was + first[..n] + queue[n..] == was + queue && queue[0..] == queue
    {
      assert first[..n] + queue[n..] == queue;
      assert was + first[..n] + queue[n..] == was + (first[..n] + queue[n..]);
    }

    /** A write event: send, and once all is sent stop asking for write events,
        or report the end of a safe close. */
    method HandleWrite() returns (ret: int)
      requires Valid()
      modifies this`sent, this`noti, this`unregistered, this`asked, this`attempts, buf, buf.repr
      ensures Valid() && buf.repr == old(buf.repr)
      ensures sent + buf.Contents() == old(sent + buf.Contents())
      ensures Sending(Reading(buf.datas, buf.w, 0), asked, ret == -1)
              == Tries(old(asked), Reading(old(buf.datas), old(buf.w), 0))
      ensures old(buf.datas[0]) == [] ==> sent == old(sent)
      ensures ret >= -2 && (ret >= 0 ==> ret == |sent| - |old(sent)|)
      ensures ret == -2 ==> buf.size == 0 && safeClosing
      ensures StallsOnlyBy(false)
      ensures if ret >= 0 && buf.size == 0 then !safeClosing && Registered(Interest(true, false)) else SameInterest()
    {
      ret := DoSend();
      if ret < 0 {
        return;
      }
      if buf.size == 0 {
        if safeClosing {
          return -2;
        }
        var _ := ModifyNotify(Interest(true, false));
      }
    }

    /** Closes at once when nothing is queued; otherwise goes on sending and
        stops reading. */
    method SafeClose() returns (ret: int)
      requires Valid()
      modifies this`sent, this`noti, this`unregistered, this`asked, this`attempts, this`safeClosing, this`recycled,
               buf, buf.repr
      ensures Valid() && buf.repr == old(buf.repr)
      ensures sent + buf.Contents() == old(sent + buf.Contents())
      ensures old(buf.datas[0]) == [] ==> sent == old(sent)
      ensures ret >= 0 ==> ret == |sent| - |old(sent)|
      ensures old(buf.size) == 0 ==>
                && recycled && ret == 0 && sent == old(sent) && safeClosing == old(safeClosing)
                && SameInterest() && asked == old(asked) && buf.datas == old(buf.datas) && buf.w == old(buf.w)
      ensures old(buf.size) > 0 ==>
                && recycled == old(recycled) && safeClosing && Registered(Interest(false, true))
                && Sending(Reading(buf.datas, buf.w, 0), asked, ret < 0)
                   == Tries(old(asked), Reading(old(buf.datas), old(buf.w), 0))
      ensures StallsOnlyBy(false)
    {
      if buf.size == 0 {
        recycled := true;
        return 0;
      }
      var _ := ModifyNotify(Interest(false, true));
      safeClosing := true;
      ret := DoSend();
    }
  }

  // ---- runs ----

  /** What a connection is asked to do. */
  datatype Call = Send(msg: seq<byte>) | WriteEvent | Close

  /** Whether a call fits a frame of its own with the header. */
  predicate Safe(call: Call) {
    call.Send? ==> |call.msg| <= SAFE_MESSAGE
  }

  /** The messages of all sends, and of those that were not refused. */
  function MsgsOf(calls: seq<Call>): seq<seq<byte>> {
    AcceptedOf(calls, seq(|calls|, _ => 0))
  }

  function AcceptedOf(calls: seq<Call>, rets: seq<int>): seq<seq<byte>>
    requires |calls| == |rets|
  {
    if calls == [] then []
    else
      var n := |calls| - 1;
      AcceptedOf(calls[..n], rets[..n]) + if calls[n].Send? && rets[n] >= 0 then [calls[n].msg] else []
  }

  function Sum(rets: seq<int>): int {
    if rets == [] then 0 else Sum(rets[..|rets| - 1]) + rets[|rets| - 1]
  }

  lemma {:induction false} OneMoreCall(calls: seq<Call>, rets: seq<int>, call: Call, ret: int)
    requires |calls| == |rets|
    ensures Concat(AcceptedOf(calls + [call], rets + [ret])) ==
            Concat(AcceptedOf(calls, rets)) + if call.Send? && ret >= 0 then call.msg else []
    ensures Sum(rets + [ret]) == Sum(rets) + ret
    ensures NoneFailed(rets + [ret]) ==> NoneFailed(rets) && ret >= 0
    ensures AllSafe(calls + [call]) ==> AllSafe(calls) && Safe(call)
  {
    var cs, rs := calls + [call], rets + [ret];
    assert cs[..|calls|] == calls && rs[..|rets|] == rets;
    assert cs[|calls|] == call && forall i :: 0 <= i < |calls| ==> calls[i] == cs[i];
    assert rs[|rets|] == ret && forall i :: 0 <= i < |rets| ==> rets[i] == rs[i];
    if call.Send? && ret >= 0 {
      ConcatSnoc(AcceptedOf(calls, rets), call.msg);
    } else {
      assert AcceptedOf(calls, rets) + [] == AcceptedOf(calls, rets);
    }
  }

  predicate AllSafe(calls: seq<Call>) {
    forall i :: 0 <= i < |calls| ==> Safe(calls[i])
  }

  predicate NoneFailed(rets: seq<int>) {
    forall i :: 0 <= i < |rets| ==> rets[i] >= 0
  }

  /** What a sender is like after these calls with these answers: it took the
      messages that were not refused, each refusal is a send that failed, the
      answers count the bytes sent, and a write event that ends the calls leaves
      nothing behind if the socket takes all and there is no stall. */
  ghost predicate Ran(s: Sender, calls: seq<Call>, rets: seq<int>)
    reads s, s.buf, s.buf.repr
  {
    && s.Valid() && |rets| == |calls| && s.accepted == Concat(AcceptedOf(calls, rets))
    && ((forall k :: s.registers(k)) ==> !s.unregistered) && (AllSafe(calls) ==> !s.lost)
    && (forall i :: 0 <= i < |calls| && calls[i].Send? && rets[i] < 0 ==> s.Refuses(|calls[i].msg|))
    && (NoneFailed(rets) ==> |s.sent| == Sum(rets))
    && (calls != [] && calls[|calls| - 1].WriteEvent? && s.TakesAll() && (forall k :: s.registers(k)) ==>
          s.buf.Contents() == [] || s.Stalled())
  }

  /** Over any run of calls, with the socket taking what it likes: unless an
      epoll_ctl failed or a buffer write came up short, the bytes sent and then
      the bytes still queued are the accepted messages in order, and queued
      bytes wait for a write event.  Messages of at most 2016 bytes never come
      up short. */
  method RunCalls(calls: seq<Call>, answer: (nat, nat) -> int, registers: nat -> bool)
      returns (rets: seq<int>, s: Sender)
    ensures fresh(s) && s.answer == answer && s.registers == registers && Ran(s, calls, rets)
    ensures !s.lost && !s.unregistered ==> s.sent + s.buf.Contents() == Concat(AcceptedOf(calls, rets))
    ensures !s.unregistered && s.buf.Contents() != [] ==> s.noti.write
    ensures (forall k :: registers(k)) && AllSafe(calls) ==>
              s.sent + s.buf.Contents() == Concat(AcceptedOf(calls, rets))
  {
    s := new Sender(answer, registers);
    rets := [];
    for i := 0 to |calls|
      invariant fresh(s) && fresh(s.buf) && fresh(s.buf.repr) && s.answer == answer && s.registers == registers
      invariant |rets| == i && Ran(s, calls[..i], rets)
    {
      var ret := RunOne(s, calls[..i], rets, calls[i]);
      assert calls[..i + 1] == calls[..i] + [calls[i]];
      rets := rets + [ret];
    }
    assert calls[..|calls|] == calls;
  }

  /** One more call of a run. */
  method RunOne(s: Sender, ghost calls: seq<Call>, ghost rets: seq<int>, call: Call) returns (ret: int)
    requires Ran(s, calls, rets)
    modifies s, s.buf, s.buf.repr
    ensures Ran(s, calls + [call], rets + [ret]) && fresh(s.buf.repr - old(s.buf.repr))
  {
    ret := MakeCall(s, call);
    OneMoreCall(calls, rets, call, ret);
  }

  method MakeCall(s: Sender, call: Call) returns (ret: int)
    requires s.Valid()
    modifies s, s.buf, s.buf.repr
    ensures s.Valid() && fresh(s.buf.repr - old(s.buf.repr))
    ensures s.accepted == if call.Send? && ret >= 0 then old(s.accepted) + call.msg else old(s.accepted)
    ensures call.Send? && old(s.noti.write) ==> ret == 0
    ensures call.Send? && ret < 0 ==> s.Refuses(|call.msg|)
    ensures s.asked >= old(s.asked) && (ret >= 0 ==> |s.sent| == |old(s.sent)| + ret)
    ensures (forall k :: s.registers(k)) && !old(s.unregistered) ==> !s.unregistered
    ensures Safe(call) && !old(s.lost) ==> !s.lost
    ensures s.StallsOnlyBy(call.Send? && 0 <= ret < |call.msg|)
    ensures call.WriteEvent? && s.TakesAll() && !s.unregistered && !old(s.unregistered) ==>
              s.buf.Contents() == [] || s.Stalled()
  {
    match call {
      case Send(msg) => ret := s.SendMessage(msg);
      case WriteEvent =>
        if s.TakesAll() {
          s.TriesSendAll(s.asked, Reading(s.buf.datas, s.buf.w, 0));
        }
        ret := s.HandleWrite();
      case Close => ret := s.SafeClose();
    }
  }

  /** Whatever is called, a stalled sender takes every message and sends nothing. */
  method StallLasts(s: Sender, calls: seq<Call>)
    requires s.Valid() && s.Stalled()
    modifies s, s.buf, s.buf.repr
    ensures s.Valid() && s.Stalled()
    ensures s.sent == old(s.sent) && s.asked == old(s.asked) && s.recycled == old(s.recycled)
    ensures s.accepted == old(s.accepted) + Concat(MsgsOf(calls))
  {
    ghost var accepted := s.accepted;
    for i := 0 to |calls|
      invariant s.Valid() && s.Stalled() && fresh(s.buf.repr - old(s.buf.repr))
      invariant s.sent == old(s.sent) && s.asked == old(s.asked) && s.recycled == old(s.recycled)
      invariant Took(s.accepted, accepted, calls[..i])
    {
      ghost var before := s.accepted;
      var _ := MakeCall(s, calls[i]);
      OneMoreMessage(calls, i, before, accepted);
    }
    assert calls[..|calls|] == calls;
  }

  ghost predicate Took(accepted: seq<byte>, before: seq<byte>, calls: seq<Call>) {
    accepted == before + Concat(MsgsOf(calls))
  }

  lemma {:induction false} OneMoreMessage(calls: seq<Call>, i: nat, accepted: seq<byte>, before: seq<byte>)
    requires i < |calls| && Took(accepted, before, calls[..i])
    ensures Took(accepted + if calls[i].Send? then calls[i].msg else [], before, calls[..i + 1])
  {
    var more := if calls[i].Send? then calls[i].msg else [];
    OneMoreCall(calls[..i], seq(i, _ => 0), calls[i], 0);
    assert calls[..i + 1] == calls[..i] + [calls[i]];
    assert seq(i + 1, _ => 0) == seq(i, _ => 0) + [0];
    assert before + (Concat(MsgsOf(calls[..i])) + more) == accepted + more;
  }

  lemma {:induction false} ConcatSnoc(chunks: seq<seq<byte>>, last: seq<byte>)
    ensures Concat(chunks + [last]) == Concat(chunks) + last
  {
    if chunks == [] {
      assert Concat([last]) == last + Concat([]);
    } else {
      assert (chunks + [last])[1..] == chunks[1..] + [last];
      ConcatSnoc(chunks[1..], last);
    }
  }

  /** A message for two frames is queued, then sent whole, and the write frame
      is left behind an empty one: the next message never goes out, whatever is
      called afterwards.  The socket takes nothing while these messages come and
      all it is offered at write events. */
  method SendCanStall(msg: seq<byte>, next: seq<byte>, calls: seq<Call>) returns (s: Sender)
    requires SAFE_MESSAGE < |msg| <= 2 * SAFE_MESSAGE && 0 < |next| <= SAFE_MESSAGE
    ensures fresh(s) && s.Valid() && s.Stalled()
    ensures s.sent == msg && s.accepted == msg + next + Concat(MsgsOf(calls))
  {
    s := new Sender((k, n) => if k == 0 || k == 4 then 0 else n, k => true);
    QueueTwoFrames(s, msg);
    SendTwoFrames(s);
    QueueBehind(s, next);
    StallLasts(s, calls);
  }

  /** A message that the socket does not take while the write frame is left
      behind an empty one. */
  method QueueBehind(s: Sender, next: seq<byte>)
    requires s.Valid() && !s.noti.write && s.buf.Contents() == [] && s.buf.w > 0 && s.sent == s.accepted
    requires 0 < |next| <= SAFE_MESSAGE && s.Taken(s.asked, |next|) == 0
    requires s.registers(s.attempts) && !s.lost && !s.unregistered
    modifies s, s.buf, s.buf.repr
    ensures s.Valid() && fresh(s.buf.repr - old(s.buf.repr)) && s.Stalled()
    ensures s.sent == old(s.sent) && s.accepted == old(s.accepted) + next && s.buf.Contents() == next
  {
    var _ := s.SendMessage(next);
    assert s.sent == old(s.sent) + next[..0] == old(s.sent);
    assert (s.sent + s.buf.Contents())[|s.sent|..] == (s.sent + next)[|s.sent|..];
  }

  /** A write event at which the socket takes both frames whole. */
  method SendTwoFrames(s: Sender)
    requires s.Valid() && |s.buf.datas| == 2 && s.buf.w == 1 && s.buf.datas[0] != [] && s.buf.datas[1] != []
    requires forall k, n :: s.asked <= k < s.asked + 3 ==> s.Taken(k, n) == n
    requires !s.safeClosing && s.registers(s.attempts) && !s.lost && !s.unregistered
    modifies s, s.buf, s.buf.repr
    ensures s.Valid() && s.buf.repr == old(s.buf.repr) && !s.lost && !s.unregistered
    ensures s.buf.Contents() == [] && s.buf.w == 1 && s.sent == old(s.accepted) == s.accepted
    ensures s.noti == Interest(true, false) && s.asked == old(s.asked) + 3
  {
    ghost var a, b := s.buf.datas[0], s.buf.datas[1];
    assert s.buf.datas == [a, b];
    s.SendsTwoFrames(s.asked, a, b);
    TwoFrames([], []);
    var _ := s.HandleWrite();
    assert s.sent + [] == s.sent;
  }

  /** What does not fit the first frame goes to a second one. */
  method QueueTwoFrames(s: Sender, msg: seq<byte>)
    requires s.Valid() && !s.noti.write && !s.lost && !s.unregistered && s.registers(s.attempts)
    requires s.Taken(s.asked, |msg|) == 0 && s.sent == s.accepted == []
    requires s.buf.datas == [[]] && s.buf.w == 0 && s.buf.wpos.FreeSize() == s.buf.RoomAhead() == SAFE_MESSAGE
    requires SAFE_MESSAGE < |msg| <= 2 * SAFE_MESSAGE
    modifies s, s.buf, s.buf.repr
    ensures s.Valid() && fresh(s.buf.repr - old(s.buf.repr))
    ensures !s.lost && !s.unregistered && s.accepted == msg && s.sent == []
    ensures s.noti == Interest(true, true) && s.asked == old(s.asked) + 1 && s.attempts == old(s.attempts) + 1
    ensures |s.buf.datas| == 2 && s.buf.w == 1 && s.buf.datas[0] != [] && s.buf.datas[1] != []
    ensures s.safeClosing == old(s.safeClosing)
  {
    s.buf.WritePos();
    StorableIsEnough(|msg|, s.buf.wpos.Full(), s.buf.RoomAhead());
    assert msg[0..] == msg;
    var _ := s.SendMessage(msg);
    ghost var ds := s.buf.datas;
    TwoFrames(ds[0], ds[1]);
    assert ds == [ds[0], ds[1]] && |ds[0]| == SAFE_MESSAGE;
    assert |s.sent + s.buf.Contents()| == |msg|;
  }

  lemma {:induction false} TwoFrames(a: seq<byte>, b: seq<byte>)
    ensures Flat([a, b]) == a + b
  {
    assert [a, b] == [a] + [b];
    FlatAppend([a], [b]);
    FlatOne(a);
    FlatOne(b);
  }
}

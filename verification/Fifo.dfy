/** Both byte buffers against one queue: any sequence of operations gives the
    same answers on the server's chain of frames, on the client's ring, and on
    a plain sequence of bytes. */
module Fifo {
  import opened Bytes
  import LoopBuf
  import RingBuffer

  datatype Op = Put(bytes: seq<byte>) | Take(n: nat) | Look(n: nat) | Clear

  /** The queue after one more operation. */
  function Next(q: seq<byte>, op: Op): seq<byte> {
    match op
    case Put(bytes) => q + bytes
    case Take(n) => q[Min(n, |q|)..]
    case Look(n) => q
    case Clear => []
  }

  /** The queue after the operations. */
  function Queue(ops: seq<Op>): seq<byte> {
    if ops == [] then [] else Next(Queue(ops[..|ops| - 1]), ops[|ops| - 1])
  }

  /** What one more operation answers. */
  function Answer(q: seq<byte>, op: Op): seq<byte> {
    if op.Take? || op.Look? then q[..Min(op.n, |q|)] else []
  }

  function Answers(ops: seq<Op>): seq<seq<byte>> {
    if ops == [] then []
    else
      var before := ops[..|ops| - 1];
      Answers(before) + [Answer(Queue(before), ops[|ops| - 1])]
  }

  /** Everything put in, and everything taken out. */
  function AllPut(ops: seq<Op>): seq<byte> {
    if ops == [] then []
    else AllPut(ops[..|ops| - 1]) + if ops[|ops| - 1].Put? then ops[|ops| - 1].bytes else []
  }

  function AllTaken(ops: seq<Op>): seq<byte> {
    if ops == [] then []
    else
      var before := ops[..|ops| - 1];
      AllTaken(before) + if ops[|ops| - 1].Take? then Answer(Queue(before), ops[|ops| - 1]) else []
  }

  /** As long as nothing is cleared, what was taken and then what is queued is
      what was put, in order. */
  lemma {:induction false} NothingIsLost(ops: seq<Op>)
    requires forall op :: op in ops ==> !op.Clear?
    ensures AllTaken(ops) + Queue(ops) == AllPut(ops)
  {
    if ops != [] {
      var before, op := ops[..|ops| - 1], ops[|ops| - 1];
      assert op in ops;
      NothingIsLost(before);
      var q := Queue(before);
      if op.Take? {
        var k := Min(op.n, |q|);
        assert q == q[..k] + q[k..];
        assert AllTaken(before) + q[..k] + q[k..] == AllTaken(before) + (q[..k] + q[k..]);
      } else if op.Put? {
        assert AllTaken(before) + (q + op.bytes) == AllTaken(before) + q + op.bytes;
      }
    }
  }

  /** The client's ring, of any starting capacity. */
  method RunRing(ops: seq<Op>, cap: nat) returns (answers: seq<seq<byte>>, left: seq<byte>)
    requires 0 < cap
    ensures answers == Answers(ops) && left == Queue(ops)
  {
    var ring := new RingBuffer.RingBuffer(cap);
    answers := [];
    var i := 0;
    while i < |ops|
      invariant i <= |ops| && ring.Valid() && fresh(ring) && fresh(ring.buf)
      invariant ring.Contents() == Queue(ops[..i]) && answers == Answers(ops[..i])
    {
      assert ops[..i + 1][..i] == ops[..i];
      var out := OnRing(ring, ops[i]);
      answers := answers + [out];
      i := i + 1;
    }
    assert ops[..i] == ops;
    left := ring.Peek(ring.size);
  }

  method OnRing(ring: RingBuffer.RingBuffer, op: Op) returns (out: seq<byte>)
    requires ring.Valid()
    modifies ring, ring.buf
    ensures ring.Valid() && (ring.buf == old(ring.buf) || fresh(ring.buf))
    ensures out == Answer(old(ring.Contents()), op) && ring.Contents() == Next(old(ring.Contents()), op)
  {
    out := [];
    match op {
      case Put(bytes) => var _ := ring.AutoResizeWrite(bytes);
      case Take(n) => out := ring.Read(n);
      case Look(n) => out := ring.Peek(n);
      case Clear => var _ := ring.Clear();
    }
  }

  /** What is asked of the server's chain of frames: the same, and to write only
      where there is room, to add a frame, or to find a byte. */
  datatype ChainOp = Do(op: Op) | Write(bytes: seq<byte>) | Extend(l: nat) | Find(c: byte)

  /** Whether the write frame is full, and the room from it to the end. */
  datatype Room = Room(full: bool, ahead: int)

  /** How the chain with queue q and that room takes an operation.  Of a message
      it stores what is storable, which is all but fewer than 32 bytes at the end
      and all of one that fits a frame with its header; a plain write stores what
      fits ahead, and nothing when the write frame is full.  Find comes to a look
      at the bytes before the first c. */
  ghost predicate Does(q: seq<byte>, room: Room, op: ChainOp, done: Op) {
    match op
    case Do(o) =>
      if o.Put? then
        && done.Put? && done.bytes <= o.bytes
        && |done.bytes| == LoopBuf.StorableIn(|o.bytes|, room.full, room.ahead)
        && |o.bytes| - |done.bytes| < LoopBuf.FRAME_HEADER
        && (|o.bytes| <= LoopBuf.SAFE_MESSAGE ==> done == o)
      else done == o
    case Write(bytes) =>
      && done.Put? && done.bytes <= bytes
      && |done.bytes| == if room.full then 0 else Min(|bytes|, room.ahead)
    case Extend(_) => done == Look(0)
    case Find(c) => done.Look? && c !in Answer(q, done) && done.n <= |q| && (done.n < |q| ==> q[done.n] == c)
  }

  /** What becomes of the room: looks leave it, a plain write uses it up, another
      frame adds to it. */
  predicate Leaves(room: Room, op: ChainOp, done: Op, room': Room) {
    match op
    case Do(o) => o.Look? ==> room' == room
    case Write(bytes) =>
      && done.Put? && room'.ahead == room.ahead - |done.bytes|
      && (|done.bytes| < |bytes| ==> room'.full && (!room.full ==> room'.ahead == 0))
    case Extend(l) => room' == Room(false, room.ahead + LoopBuf.NewCapacity(l))
    case Find(_) => room' == room
  }

  ghost function RoomOf(chain: LoopBuf.LoopBuf): Room
    requires chain.Valid()
    reads chain, chain.repr
  {
    chain.WritePos();
    Room(chain.wpos.Full(), chain.RoomAhead())
  }

  /** Every operation of a run was taken that way, from an empty first frame on. */
  ghost predicate Followed(ops: seq<ChainOp>, done: seq<Op>, rooms: seq<Room>) {
    && |done| == |ops| && |rooms| == |ops| + 1 && rooms[0] == Room(false, LoopBuf.SAFE_MESSAGE)
    && (forall i :: 0 <= i < |ops| ==> Does(Queue(done[..i]), rooms[i], ops[i], done[i]))
    && (forall i :: 0 <= i < |ops| ==> Leaves(rooms[i], ops[i], done[i], rooms[i + 1]))
  }

  lemma {:induction false} FollowedNext(ops: seq<ChainOp>, done: seq<Op>, rooms: seq<Room>, op: ChainOp, d: Op,
                                        room: Room)
    requires Followed(ops, done, rooms) && Does(Queue(done), rooms[|ops|], op, d) && Leaves(rooms[|ops|], op, d, room)
    ensures Followed(ops + [op], done + [d], rooms + [room])
  {
    var ds := done + [d];
    assert ds[..|done|] == done;
    forall i | 0 <= i < |done| ensures ds[..i] == done[..i] {
    }
  }

  /** The server's chain of frames, with its room before each operation; as its
      callers do, a take never asks it for more than there is. */
  method RunChain(ops: seq<ChainOp>)
      returns (done: seq<Op>, answers: seq<seq<byte>>, left: seq<byte>, ghost rooms: seq<Room>)
    ensures Followed(ops, done, rooms) && answers == Answers(done) && left == Queue(done)
  {
    var chain := new LoopBuf.LoopBuf();
    done, answers, rooms := [], [], [RoomOf(chain)];
    for i := 0 to |ops|
      invariant fresh(chain) && fresh(chain.repr) && Stands(chain, ops[..i], done, answers, rooms)
    {
      done, answers, rooms := OneMore(chain, ops[..i], done, answers, rooms, ops[i]);
      assert ops[..i + 1] == ops[..i] + [ops[i]];
    }
    assert ops[..|ops|] == ops;
    left := chain.Peek(chain.size);
  }

  /** The chain after these operations, taken that way with these answers. */
  ghost predicate Stands(chain: LoopBuf.LoopBuf, ops: seq<ChainOp>, done: seq<Op>, answers: seq<seq<byte>>,
                         rooms: seq<Room>)
    reads chain, chain.repr
  {
    && chain.Valid() && chain.Contents() == Queue(done) && answers == Answers(done)
    && Followed(ops, done, rooms) && rooms[|ops|] == RoomOf(chain)
  }

  method OneMore(chain: LoopBuf.LoopBuf, ghost ops: seq<ChainOp>, done: seq<Op>, answers: seq<seq<byte>>,
                 ghost rooms: seq<Room>, op: ChainOp)
      returns (done': seq<Op>, answers': seq<seq<byte>>, ghost rooms': seq<Room>)
    requires Stands(chain, ops, done, answers, rooms)
    modifies chain, chain.repr
    ensures Stands(chain, ops + [op], done', answers', rooms') && fresh(chain.repr - old(chain.repr))
  {
    var d, out := OnChain(chain, op);
    done', answers', rooms' := done + [d], answers + [out], rooms + [RoomOf(chain)];
    FollowedNext(ops, done, rooms, op, d, RoomOf(chain));
    QueueNext(done, d);
  }

  lemma {:induction false} QueueNext(ops: seq<Op>, op: Op)
    ensures Queue(ops + [op]) == Next(Queue(ops), op)
    ensures Answers(ops + [op]) == Answers(ops) + [Answer(Queue(ops), op)]
  {
    assert (ops + [op])[..|ops|] == ops;
  }

  method OnChain(chain: LoopBuf.LoopBuf, op: ChainOp) returns (done: Op, out: seq<byte>)
    requires chain.Valid()
    modifies chain, chain.repr
    ensures chain.Valid() && fresh(chain.repr - old(chain.repr))
    ensures Does(old(chain.Contents()), old(RoomOf(chain)), op, done)
    ensures Leaves(old(RoomOf(chain)), op, done, RoomOf(chain))
    ensures out == Answer(old(chain.Contents()), done) && chain.Contents() == Next(old(chain.Contents()), done)
  {
    out, done := [], Look(0);
    match op {
      case Do(Put(bytes)) => done := PutOnChain(chain, bytes);
      case Do(Take(n)) =>
        out := chain.Read(Min(n, chain.size));
        done := op.op;
      case Do(Look(n)) =>
        out := chain.Peek(n);
        done := op.op;
      case Do(Clear) =>
        var _ := chain.Clear();
        done := op.op;
      case Write(bytes) => done := WriteOnChain(chain, bytes);
      case Extend(l) => var _ := chain.Extend(l);
      case Find(c) => done, out := FindOnChain(chain, c);
    }
  }

  method WriteOnChain(chain: LoopBuf.LoopBuf, bytes: seq<byte>) returns (done: Op)
    requires chain.Valid()
    modifies chain, chain.repr
    ensures chain.Valid() && fresh(chain.repr - old(chain.repr))
    ensures Does(old(chain.Contents()), old(RoomOf(chain)), Write(bytes), done)
    ensures Leaves(old(RoomOf(chain)), Write(bytes), done, RoomOf(chain))
    ensures chain.Contents() == Next(old(chain.Contents()), done)
  {
    chain.WritePos();
    var n := chain.Write(bytes);
    done := Put(bytes[..n]);
  }

  /** The bytes before the first c, or all. */
  method FindOnChain(chain: LoopBuf.LoopBuf, c: byte) returns (done: Op, out: seq<byte>)
    requires chain.Valid()
    ensures Does(chain.Contents(), RoomOf(chain), Find(c), done) && out == Answer(chain.Contents(), done)
  {
    var at := chain.Find(c);
    var n := if at == -1 then chain.size else at;
    out := chain.Peek(n);
    done := Look(n);
  }

  method PutOnChain(chain: LoopBuf.LoopBuf, bytes: seq<byte>) returns (done: Op)
    requires chain.Valid()
    modifies chain, chain.repr
    ensures chain.Valid() && fresh(chain.repr - old(chain.repr))
    ensures Does(old(chain.Contents()), old(RoomOf(chain)), Do(Put(bytes)), done)
    ensures chain.Contents() == Next(old(chain.Contents()), done)
  {
    chain.WritePos();
    LoopBuf.StorableIsEnough(|bytes|, chain.wpos.Full(), chain.RoomAhead());
    var before := chain.size;
    var _, stored := chain.AutoResizeWrite(bytes);
    done := Put(bytes[..chain.size - before]);
    assert stored == |bytes| ==> bytes[..stored] == bytes;
  }
}

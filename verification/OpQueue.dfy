/** The queue of operators that other threads push for the loop thread: bytes
    behind a mutex, a flag and a wake-up byte on a socket pair. A state machine
    whose steps are the atomic actions of `addAsynOperator` and of one pass of
    `run` and `processOps`; every interleaving of them is a sequence of labels. */
module OpQueue {
  import opened Bytes

  // ---- Operator pointers ----

  type pointer = p: int | 0 <= p < TWO_64
  const PTR_SIZE := 8

  function PointerBytes(p: pointer): (r: seq<byte>)
    ensures |r| == PTR_SIZE
  {
    Little(p % TWO_32) + Little(p / TWO_32)
  }

  function PointerAt(s: seq<byte>): pointer
    requires |s| == PTR_SIZE
  {
    LittleValue(s[..4]) + TWO_32 * LittleValue(s[4..])
  }

  lemma {:induction false} PointerRoundTrip(p: pointer)
    ensures PointerAt(PointerBytes(p)) == p
  {
    LittleRoundTrip(p % TWO_32);
    LittleRoundTrip(p / TWO_32);
    assert PointerBytes(p)[..4] == Little(p % TWO_32);
    assert PointerBytes(p)[4..] == Little(p / TWO_32);
  }

  /** Pointers one after the other, as the buffer holds them. */
  function Encode(ps: seq<pointer>): (r: seq<byte>)
    ensures |r| == PTR_SIZE * |ps|
  {
    if ps == [] then [] else PointerBytes(ps[0]) + Encode(ps[1..])
  }

  lemma {:induction false} EncodeAppend(ps: seq<pointer>, p: pointer)
    ensures Encode(ps + [p]) == Encode(ps) + PointerBytes(p)
  {
    if ps == [] {
      assert ps + [p] == [p] && [p][1..] == [];
    } else {
      EncodeAppend(ps[1..], p);
      assert (ps + [p])[1..] == ps[1..] + [p];
    }
  }

  // ---- States and steps ----

  /** Where a thread is inside addAsynOperator. */
  datatype Producer =
    | Lock(op: pointer)
    | Write(op: pointer)
    | Rest(op: pointer, done: nat)
    | Give
    | CompareExchange
    | Send

  datatype Holder = Free | Caller(id: nat) | LoopThread

  /** Where the loop thread is; Reset to Taken are processOps. */
  datatype LoopAt = Reset | Recv | Check | Take | Read | GiveGot | Process | GiveNone | Timers | Blocked

  /** `pushed` and `processed` record the operators whose write was completed
      and those handed to `process`; the program does not keep them. */
  datatype State = State(
    producers: map<nat, Producer>,
    holder: Holder,
    queue: seq<byte>,
    flag: bool,
    ctl: nat,
    loop: LoopAt,
    hand: seq<pointer>,
    pushed: seq<pointer>,
    processed: seq<pointer>)

  const Start := State(map[], Free, [], false, 0, Reset, [], [], [])

  /** One atomic action. `first` is what fits in the write frame before the
      chain is extended; a send fails only on a full socket. */
  datatype Label =
    | Call(id: nat, op: pointer)
    | MutexTake(id: nat)
    | StartWrite(id: nat, first: nat)
    | FinishWrite(id: nat)
    | MutexGive(id: nat)
    | TestAndSet(id: nat)
    | SendByte(id: nat, ok: bool)
    | LoopStep
    | OtherEvent

  const NULL_OP: pointer := 0
  const RECV_SIZE := 1024 * 16

  predicate At(s: State, id: nat) {
    id in s.producers
  }

  predicate Enabled(s: State, l: Label) {
    match l
    case Call(id, op) => !At(s, id)
    case MutexTake(id) => At(s, id) && s.producers[id].Lock? && s.holder == Free
    case StartWrite(id, first) => At(s, id) && s.producers[id].Write? && first <= PTR_SIZE
    case FinishWrite(id) => At(s, id) && s.producers[id].Rest? && s.producers[id].done <= PTR_SIZE
    case MutexGive(id) => At(s, id) && s.producers[id].Give?
    case TestAndSet(id) => At(s, id) && s.producers[id].CompareExchange?
    case SendByte(id, ok) => At(s, id) && s.producers[id].Send? && (ok || s.ctl > 0)
    case LoopStep => (s.loop.Take? ==> s.holder == Free) && (s.loop.Blocked? ==> s.ctl > 0)
    case OtherEvent => s.loop.Blocked?
  }

  function Moved(s: State, id: nat, p: Producer): State {
    s.(producers := s.producers[id := p])
  }

  function Returned(s: State, id: nat): State {
    s.(producers := s.producers - {id})
  }

  function Do(s: State, l: Label): State
    requires Enabled(s, l)
  {
    match l
    case Call(id, op) => Moved(s, id, if op == NULL_OP then CompareExchange else Lock(op))
    case MutexTake(id) => Moved(s, id, Write(s.producers[id].op)).(holder := Caller(id))
    case StartWrite(id, first) =>
      var op := s.producers[id].op;
      Moved(s, id, Rest(op, first)).(queue := s.queue + PointerBytes(op)[..first])
    case FinishWrite(id) =>
      var Rest(op, done) := s.producers[id];
      Moved(s, id, Give).(queue := s.queue + PointerBytes(op)[done..], pushed := s.pushed + [op])
    case MutexGive(id) => Moved(s, id, CompareExchange).(holder := Free)
    case TestAndSet(id) => if s.flag then Returned(s, id) else Moved(s, id, Send).(flag := true)
    case SendByte(id, ok) => if ok then Returned(s, id).(ctl := s.ctl + 1) else Returned(s, id)
    case LoopStep => DoLoop(s)
    case OtherEvent => s.(loop := Reset)
  }

  function DoLoop(s: State): State
    requires Enabled(s, LoopStep)
  {
    match s.loop
    case Reset => s.(flag := false, loop := Recv)
    case Recv => s.(ctl := if s.ctl <= RECV_SIZE then 0 else s.ctl - RECV_SIZE, loop := Check)
    case Check => s.(loop := if |s.queue| > 0 then Take else Timers)
    case Take => s.(holder := LoopThread, loop := Read)
    case Read =>
      if |s.queue| >= PTR_SIZE then
        s.(hand := [PointerAt(s.queue[..PTR_SIZE])], queue := s.queue[PTR_SIZE..], loop := GiveGot)
      else
        s.(loop := GiveNone)
    case GiveGot => s.(holder := Free, loop := Process)
    case Process => s.(processed := s.processed + s.hand, hand := [], loop := Check)
    case GiveNone => s.(holder := Free, loop := Timers)
    case Timers => s.(loop := Blocked)
    case Blocked => s.(loop := Reset)
  }

  // ---- Runs ----

  datatype End = Impossible | Reached(value: State)

  /** The state a run ends in, if each of its steps was possible. */
  function After(s: State, run: seq<Label>): End {
    if run == [] then Reached(s)
    else
      var before := After(s, run[..|run| - 1]);
      var l := run[|run| - 1];
      if before.Reached? && Enabled(before.value, l) then Reached(Do(before.value, l)) else Impossible
  }

  // ---- Mutual exclusion ----

  predicate InSection(p: Producer) {
    p.Write? || p.Rest? || p.Give?
  }

  predicate LoopInSection(at: LoopAt) {
    at.Read? || at.GiveGot? || at.GiveNone?
  }

  /** Whoever is between take and give holds the mutex. */
  ghost predicate Exclusive(s: State) {
    && (forall id :: At(s, id) ==> (InSection(s.producers[id]) <==> s.holder == Caller(id)))
    && (s.holder.Caller? ==> At(s, s.holder.id))
    && (LoopInSection(s.loop) <==> s.holder == LoopThread)
  }

  lemma {:induction false} StepKeepsExclusive(s: State, l: Label)
    requires Exclusive(s) && Enabled(s, l)
    ensures Exclusive(Do(s, l))
  {
  }

  // ---- First in, first out ----

  /** The bytes of a pointer whose write is under way. */
  function Partial(s: State): seq<byte> {
    if s.holder.Caller? && At(s, s.holder.id) && s.producers[s.holder.id].Rest? &&
       s.producers[s.holder.id].done <= PTR_SIZE
    then PointerBytes(s.producers[s.holder.id].op)[..s.producers[s.holder.id].done]
    else []
  }

  function Taken(s: State): seq<pointer> {
    s.processed + s.hand
  }

  /** A producer works on a real operator and never writes more than it. */
  predicate Sound(p: Producer) {
    && (p.Lock? || p.Write? || p.Rest? ==> p.op != NULL_OP)
    && (p.Rest? ==> p.done <= PTR_SIZE)
  }

  ghost predicate AllSound(s: State) {
    forall id :: At(s, id) ==> Sound(s.producers[id])
  }

  /** Exactly while the loop thread has an operator to process it holds one. */
  predicate Handed(s: State) {
    |s.hand| == if s.loop.GiveGot? || s.loop.Process? then 1 else 0
  }

  /** The queue is the encoding of what was pushed and not yet taken. */
  predicate Stored(s: State) {
    && Taken(s) <= s.pushed
    && s.queue == Encode(s.pushed[|Taken(s)|..]) + Partial(s)
    && NULL_OP !in s.pushed
  }

  ghost predicate Consistent(s: State) {
    Exclusive(s) && AllSound(s) && Handed(s) && Stored(s)
  }

  lemma {:induction false} StartWriteKeepsStored(s: State, l: Label)
    requires Consistent(s) && Enabled(s, l) && l.StartWrite?
    ensures Stored(Do(s, l))
  {
    var t := Do(s, l);
    assert s.holder == Caller(l.id) && t.producers[l.id] == Rest(s.producers[l.id].op, l.first);
    assert Partial(s) == [];
    assert Partial(t) == PointerBytes(s.producers[l.id].op)[..l.first];
    assert s.queue + [] == s.queue;
    assert Taken(t) == Taken(s);
  }

  lemma {:induction false} FinishWriteKeepsStored(s: State, l: Label)
    requires Consistent(s) && Enabled(s, l) && l.FinishWrite?
    ensures Stored(Do(s, l))
  {
    var t := Do(s, l);
    var Rest(op, done) := s.producers[l.id];
    var rest := s.pushed[|Taken(s)|..];
    assert s.holder == Caller(l.id) && Sound(s.producers[l.id]);
    assert s.queue == Encode(rest) + PointerBytes(op)[..done];
    assert Partial(t) == [];
    Rejoined(Encode(rest), PointerBytes(op), done);
    EncodeAppend(rest, op);
    assert t.queue == Encode(rest + [op]);
    assert Taken(t) == Taken(s);
    assert t.pushed[|Taken(t)|..] == rest + [op];
    assert t.queue + [] == t.queue;
  }

  lemma {:induction false} Rejoined(front: seq<byte>, s: seq<byte>, k: nat)
    requires k <= |s|
    ensures (front + s[..k]) + s[k..] == front + s
  {
  }

  lemma {:induction false} EncodeFirst(ps: seq<pointer>)
    requires ps != []
    ensures Encode(ps)[..PTR_SIZE] == PointerBytes(ps[0])
    ensures Encode(ps)[PTR_SIZE..] == Encode(ps[1..])
  {
  }

  lemma {:induction false} ReadKeepsStored(s: State)
    requires Consistent(s) && s.loop.Read?
    ensures Stored(DoLoop(s))
    ensures DoLoop(s).loop.GiveNone? ==> s.queue == []
  {
    var rest := s.pushed[|Taken(s)|..];
    assert Partial(s) == [];
    assert s.queue == Encode(rest);
    if rest != [] {
      EncodeFirst(rest);
      PointerRoundTrip(rest[0]);
      var t := DoLoop(s);
      assert Taken(t) == Taken(s) + [rest[0]];
      assert t.pushed[|Taken(t)|..] == rest[1..];
      assert Partial(t) == [];
      assert t.queue + [] == t.queue;
    }
  }

  lemma {:induction false} StepKeepsStored(s: State, l: Label)
    requires Consistent(s) && Enabled(s, l)
    ensures Stored(Do(s, l))
  {
    if l.StartWrite? {
      StartWriteKeepsStored(s, l);
    } else if l.FinishWrite? {
      FinishWriteKeepsStored(s, l);
    } else if l.LoopStep? && s.loop.Read? {
      ReadKeepsStored(s);
    } else {
      OtherStepsMoveNothing(s, l);
    }
  }

  lemma {:induction false} OtherStepsMoveNothing(s: State, l: Label)
    requires Consistent(s) && Enabled(s, l)
    requires !l.StartWrite? && !l.FinishWrite? && !(l.LoopStep? && s.loop.Read?)
    ensures var t := Do(s, l);
            t.queue == s.queue && t.pushed == s.pushed && Taken(t) == Taken(s) && Partial(t) == Partial(s)
  {
    if l.LoopStep? {
      LoopMovesNothing(s);
    } else if !l.OtherEvent? {
      PartialStays(s, Do(s, l), l.id);
    }
  }

  lemma {:induction false} LoopMovesNothing(s: State)
    requires Exclusive(s) && Handed(s) && Enabled(s, LoopStep) && !s.loop.Read?
    ensures var t := DoLoop(s);
            t.queue == s.queue && t.pushed == s.pushed && Taken(t) == Taken(s) && Partial(t) == Partial(s)
  {
    var t := DoLoop(s);
    if s.loop.Process? {
      assert t.processed + [] == t.processed;
    }
    if t.holder != s.holder {
      assert Partial(t) == [] && Partial(s) == [];
    }
  }

  lemma {:induction false} PartialStays(s: State, t: State, id: nat)
    requires !(At(s, id) && s.producers[id].Rest?) && !(At(t, id) && t.producers[id].Rest?)
    requires forall i :: i != id ==> (At(s, i) <==> At(t, i)) && (At(s, i) ==> t.producers[i] == s.producers[i])
    requires t.holder != s.holder ==> (s.holder == Free && t.holder == Caller(id)) ||
                                      (s.holder == Caller(id) && t.holder == Free)
    ensures Partial(t) == Partial(s)
  {
    if t.holder == Caller(id) || s.holder == Caller(id) {
      assert Partial(t) == [] && Partial(s) == [];
    }
  }

  lemma {:induction false} StepKeepsConsistent(s: State, l: Label)
    requires Consistent(s) && Enabled(s, l)
    ensures Consistent(Do(s, l))
  {
    StepKeepsExclusive(s, l);
    StepKeepsStored(s, l);
    StepKeepsSound(s, l);
  }

  lemma {:induction false} StepKeepsSound(s: State, l: Label)
    requires AllSound(s) && Handed(s) && Enabled(s, l)
    ensures AllSound(Do(s, l)) && Handed(Do(s, l))
  {
  }

  lemma {:induction false} RunsAreConsistent(run: seq<Label>)
    requires After(Start, run).Reached?
    ensures Consistent(After(Start, run).value)
  {
    if run != [] {
      RunsAreConsistent(run[..|run| - 1]);
      StepKeepsConsistent(After(Start, run[..|run| - 1]).value, run[|run| - 1]);
    }
  }

  /** Under every interleaving operators are processed in the order their writes
      finished, none lost, none twice; the queue holds whole pointers whenever
      no producer is half-way, and none of them is NULL. */
  lemma {:induction false} ProcessedInPushOrder(run: seq<Label>)
    requires After(Start, run).Reached?
    ensures var s := After(Start, run).value;
            && s.processed + s.hand <= s.pushed
            && NULL_OP !in s.pushed
            && (s.loop.Process? ==> |s.hand| == 1)
            && ((forall id :: At(s, id) ==> !s.producers[id].Rest?) ==>
                s.queue == Encode(s.pushed[|s.processed + s.hand|..]))
  {
    RunsAreConsistent(run);
  }

  /** From the look at its size until the read the queue is not empty. */
  predicate Waiting(s: State) {
    !s.loop.GiveNone? && (s.loop.Take? || s.loop.Read? ==> s.queue != [])
  }

  /** The loop thread never finds less than a whole pointer behind the mutex,
      although it looks at the size before it takes the mutex. */
  lemma {:induction false} NeverComesUpShort(run: seq<Label>)
    requires After(Start, run).Reached?
    ensures var s := After(Start, run).value;
            !s.loop.GiveNone? && (s.loop.Read? ==> |s.queue| >= PTR_SIZE)
    ensures Waiting(After(Start, run).value)
  {
    RunsAreConsistent(run);
    if run != [] {
      var init, l := run[..|run| - 1], run[|run| - 1];
      NeverComesUpShort(init);
      RunsAreConsistent(init);
      WaitingStep(After(Start, init).value, l);
    }
    WholePointers(After(Start, run).value);
  }

  lemma {:induction false} WaitingStep(s: State, l: Label)
    requires Consistent(s) && Waiting(s) && Enabled(s, l)
    ensures Waiting(Do(s, l))
  {
    if l.LoopStep? && s.loop.Read? {
      WholePointers(s);
    }
  }

  lemma {:induction false} WholePointers(s: State)
    requires Consistent(s) && Waiting(s)
    ensures s.loop.Read? ==> |s.queue| >= PTR_SIZE
  {
    if s.loop.Read? {
      assert Partial(s) == [];
      assert s.queue == Encode(s.pushed[|Taken(s)|..]);
    }
  }

  /** At most one thread is between mutexTake and mutexGive. */
  lemma {:induction false} MutualExclusion(run: seq<Label>, i: nat, j: nat)
    requires After(Start, run).Reached?
    ensures var s := After(Start, run).value;
            && (At(s, i) && At(s, j) && InSection(s.producers[i]) && InSection(s.producers[j]) ==> i == j)
            && !(At(s, i) && InSection(s.producers[i]) && LoopInSection(s.loop))
  {
    RunsAreConsistent(run);
  }

  // ---- Wake-ups ----

  ghost predicate Sending(s: State) {
    exists id :: At(s, id) && s.producers[id].Send?
  }

  /** A producer that has begun to write and has not looked at the flag yet. */
  predicate Announcing(p: Producer) {
    p.Rest? || p.Give? || p.CompareExchange?
  }

  /** Between the last look at the queue and the next pass. */
  predicate PastCheck(at: LoopAt) {
    at.GiveNone? || at.Timers? || at.Blocked?
  }

  /** What arrives after the last look is announced by the flag, or will be. */
  ghost predicate Announced(s: State) {
    PastCheck(s.loop) && s.queue != [] ==>
      s.flag || exists id :: At(s, id) && Announcing(s.producers[id])
  }

  lemma {:induction false} StepKeepsAnnounced(s: State, l: Label)
    requires Consistent(s) && Announced(s) && Enabled(s, l)
    ensures Announced(Do(s, l))
  {
    if l.LoopStep? {
      LoopKeepsAnnounced(s);
    } else if !l.OtherEvent? {
      ProducerKeepsAnnounced(s, l);
    }
  }

  lemma {:induction false} LoopKeepsAnnounced(s: State)
    requires Consistent(s) && Announced(s) && Enabled(s, LoopStep)
    ensures Announced(Do(s, LoopStep))
  {
    if s.loop.Read? {
      ReadKeepsStored(s);
    }
  }

  lemma {:induction false} ProducerKeepsAnnounced(s: State, l: Label)
    requires Announced(s) && Enabled(s, l) && !l.LoopStep? && !l.OtherEvent?
    ensures Announced(Do(s, l))
  {
    var t := Do(s, l);
    if l.StartWrite? || l.FinishWrite? || l.MutexGive? {
      assert At(t, l.id) && Announcing(t.producers[l.id]);
    } else if id :| At(s, id) && Announcing(s.producers[id]) {
      assert id == l.id || (At(t, id) && t.producers[id] == s.producers[id]);
    }
  }

  /** The flag keeps every producer from sending although no byte is waiting and
      none is about to be sent. */
  ghost predicate Deaf(s: State) {
    s.flag && s.ctl == 0 && !Sending(s) && !s.loop.Reset?
  }

  /** The loop can only turn deaf when recv drains the byte of a flag that was
      set again after the reset. */
  lemma {:induction false} DeafExactly(s: State, l: Label)
    requires Enabled(s, l) && !Deaf(s)
    ensures Deaf(Do(s, l)) <==>
            l.LoopStep? && s.loop.Recv? && s.flag && s.ctl <= RECV_SIZE && !Sending(s)
  {
    var t := Do(s, l);
    if l.TestAndSet? && !s.flag {
      assert At(t, l.id) && t.producers[l.id].Send?;
    } else if !l.LoopStep? && !l.OtherEvent? {
      if id :| At(s, id) && s.producers[id].Send? {
        assert t.ctl > 0 || (At(t, id) && t.producers[id].Send?);
      }
    } else {
      assert t.producers == s.producers;
    }
  }

  /** No compare-exchange falls between the flag reset and the recv. */
  predicate Undisturbed(run: seq<Label>) {
    run != [] ==>
      var before := After(Start, run[..|run| - 1]);
      && Undisturbed(run[..|run| - 1])
      && (run[|run| - 1].TestAndSet? && before.Reached? ==> !before.value.loop.Recv?)
  }

  lemma {:induction false} UndisturbedRunsHear(run: seq<Label>)
    requires After(Start, run).Reached? && Undisturbed(run)
    ensures var s := After(Start, run).value;
            !Deaf(s) && (s.loop.Recv? ==> !s.flag)
  {
    if run != [] {
      var init, l := run[..|run| - 1], run[|run| - 1];
      UndisturbedRunsHear(init);
      DeafExactly(After(Start, init).value, l);
    }
  }

  lemma {:induction false} RunsAnnounce(run: seq<Label>)
    requires After(Start, run).Reached?
    ensures Announced(After(Start, run).value)
  {
    if run != [] {
      var init, l := run[..|run| - 1], run[|run| - 1];
      RunsAreConsistent(init);
      RunsAnnounce(init);
      StepKeepsAnnounced(After(Start, init).value, l);
    }
  }

  /** Whenever the loop waits although operators are queued, a byte is on its
      way to it, or the flag is up without one. */
  lemma {:induction false} QueuedMeansWokenOrDeaf(run: seq<Label>)
    requires After(Start, run).Reached?
    ensures var s := After(Start, run).value;
            s.loop.Blocked? && s.queue != [] ==> s.ctl > 0 || Inside(s) || Deaf(s)
  {
    RunsAnnounce(run);
  }

  ghost predicate Inside(s: State) {
    exists id :: At(s, id)
  }

  /** If no compare-exchange falls into the window, the loop is always woken. */
  lemma {:induction false} QueuedMeansWoken(run: seq<Label>)
    requires After(Start, run).Reached? && Undisturbed(run)
    ensures var s := After(Start, run).value;
            s.loop.Blocked? && s.queue != [] ==> s.ctl > 0 || Inside(s)
  {
    QueuedMeansWokenOrDeaf(run);
    UndisturbedRunsHear(run);
  }

  // ---- The lost wake-up ----

  ghost predicate Stuck(s: State) {
    s.loop.Blocked? && Deaf(s)
  }

  lemma {:induction false} StuckStep(s: State, l: Label)
    requires Stuck(s) && Enabled(s, l) && !l.OtherEvent?
    ensures Stuck(Do(s, l)) && Taken(Do(s, l)) == Taken(s)
  {
    var t := Do(s, l);
    if id :| At(t, id) && t.producers[id].Send? {
      assert At(s, id);
      assert false;
    }
  }

  /** Once stuck, whatever the producers do, nothing more is processed until a
      timer or another socket wakes the loop. */
  lemma {:induction false} StuckStays(s: State, run: seq<Label>)
    requires Stuck(s) && After(s, run).Reached?
    requires forall l :: l in run ==> !l.OtherEvent?
    ensures var t := After(s, run).value;
            Stuck(t) && Taken(t) == Taken(s)
  {
    if run != [] {
      var init, l := run[..|run| - 1], run[|run| - 1];
      StuckStays(s, init);
      assert l in run;
      StuckStep(After(s, init).value, l);
    }
  }

  /** One whole call of addAsynOperator, with or without the send. */
  function WholeCall(id: nat, op: pointer, sends: bool): seq<Label> {
    [Call(id, op), MutexTake(id), StartWrite(id, PTR_SIZE), FinishWrite(id), MutexGive(id), TestAndSet(id)] +
    if sends then [SendByte(id, true)] else []
  }

  /** What a call that meets nobody does to the state, up to the flag. */
  function PushedBy(s: State, id: nat, op: pointer): State {
    s.(queue := s.queue + PointerBytes(op), pushed := s.pushed + [op],
       producers := s.producers[id := CompareExchange])
  }

  lemma {:induction false} CallReachesFlag(s: State, id: nat, op: pointer, run: seq<Label>)
    requires !At(s, id) && op != NULL_OP && s.holder == Free
    requires |run| >= 5 && run[0] == Call(id, op) && run[1] == MutexTake(id)
    requires run[2] == StartWrite(id, PTR_SIZE) && run[3] == FinishWrite(id) && run[4] == MutexGive(id)
    ensures After(s, run[..5]) == Reached(PushedBy(s, id, op))
  {
    var s3 := CallStores(s, id, op, run);
    var s4 := Moved(s3, id, Give).(pushed := s.pushed + [op]);
    assert s3.queue + PointerBytes(op)[PTR_SIZE..] == s3.queue;
    NextOf(s, run, 3, s3);
    NextOf(s, run, 4, s4);
    assert s4.producers[id := CompareExchange] == s.producers[id := CompareExchange];
  }

  /** The first half: with the mutex, all bytes of the pointer are written. */
  lemma {:induction false} CallStores(s: State, id: nat, op: pointer, run: seq<Label>) returns (s3: State)
    requires !At(s, id) && op != NULL_OP && s.holder == Free
    requires |run| >= 3 && run[0] == Call(id, op) && run[1] == MutexTake(id) && run[2] == StartWrite(id, PTR_SIZE)
    ensures After(s, run[..3]) == Reached(s3)
    ensures s3 == s.(producers := s.producers[id := Rest(op, PTR_SIZE)], holder := Caller(id),
                     queue := s.queue + PointerBytes(op))
  {
    var s1 := Moved(s, id, Lock(op));
    var s2 := Moved(s1, id, Write(op)).(holder := Caller(id));
    s3 := Moved(s2, id, Rest(op, PTR_SIZE)).(queue := s.queue + PointerBytes(op));
    assert PointerBytes(op)[..PTR_SIZE] == PointerBytes(op);
    assert run[..0] == [];
    NextOf(s, run, 0, s);
    NextOf(s, run, 1, s1);
    NextOf(s, run, 2, s2);
    assert s3.producers == s.producers[id := Rest(op, PTR_SIZE)];
  }

  lemma {:induction false} NextOf(s: State, run: seq<Label>, k: nat, t: State)
    requires k < |run| && After(s, run[..k]) == Reached(t) && Enabled(t, run[k])
    ensures After(s, run[..k + 1]) == Reached(Do(t, run[k]))
  {
    assert run[..k + 1] == run[..k] + [run[k]];
    AfterLast(s, run[..k], t, run[k]);
  }

  lemma {:induction false} WholeCallPushes(s: State, id: nat, op: pointer)
    requires !At(s, id) && op != NULL_OP && s.holder == Free
    ensures After(s, WholeCall(id, op, !s.flag)) ==
            Reached(s.(queue := s.queue + PointerBytes(op), pushed := s.pushed + [op], flag := true,
                    ctl := if s.flag then s.ctl else s.ctl + 1))
  {
    var run := WholeCall(id, op, !s.flag);
    CallReachesFlag(s, id, op, run);
    var s5 := PushedBy(s, id, op);
    NextOf(s, run, 5, s5);
    if s.flag {
      assert run == run[..6];
      assert Returned(s5, id).producers == s.producers;
    } else {
      var s6 := Moved(s5, id, Send).(flag := true);
      NextOf(s, run, 6, s6);
      assert run == run[..7];
      assert Returned(s6, id).producers == s.producers;
    }
  }

  /** A call without an operator, which ends the wait of an idle loop: whoever
      holds the mutex, it raises the flag and sends a byte exactly if the flag was
      down; a send that fails changes nothing more. */
  lemma {:induction false} NullCallWakes(s: State, id: nat, ok: bool)
    requires !At(s, id) && (ok || s.ctl > 0)
    ensures var looked := After(s, [Call(id, NULL_OP), TestAndSet(id)]);
            && looked.Reached? && (At(looked.value, id) <==> !s.flag)
            && (s.flag ==> looked.value == s)
    ensures !s.flag ==> After(s, [Call(id, NULL_OP), TestAndSet(id), SendByte(id, ok)]) ==
                        Reached(s.(flag := true, ctl := if ok then s.ctl + 1 else s.ctl))
  {
    var run := [Call(id, NULL_OP), TestAndSet(id), SendByte(id, ok)];
    var s1 := Moved(s, id, CompareExchange);
    assert run[..0] == [] && run[..2] == [Call(id, NULL_OP), TestAndSet(id)] && run[..3] == run;
    NextOf(s, run, 0, s);
    NextOf(s, run, 1, s1);
    if s.flag {
      assert Returned(s1, id).producers == s.producers;
    } else {
      var s2 := Moved(s1, id, Send).(flag := true);
      NextOf(s, run, 2, s2);
      assert Returned(s2, id).producers == s.producers;
    }
  }

  lemma {:induction false} AfterLast(s: State, run: seq<Label>, t: State, l: Label)
    requires After(s, run) == Reached(t) && Enabled(t, l)
    ensures After(s, run + [l]) == Reached(Do(t, l))
  {
    assert (run + [l])[..|run|] == run;
  }

  lemma {:induction false} AfterBoth(s: State, run: seq<Label>, t: State, more: seq<Label>)
    requires After(s, run) == Reached(t)
    ensures After(s, run + more) == After(t, more)
  {
    if more == [] {
      assert run + more == run;
    } else {
      var both := run + more;
      assert both[..|both| - 1] == run + more[..|more| - 1];
      AfterBoth(s, run, t, more[..|more| - 1]);
    }
  }

  /** The loop thread alone, n steps. */
  function Alone(n: nat): seq<Label> {
    seq(n, _ => LoopStep)
  }

  lemma {:induction false} AloneFirst(s: State, n: nat)
    requires n > 0 && Enabled(s, LoopStep)
    ensures After(s, Alone(n)) == After(DoLoop(s), Alone(n - 1))
  {
    AfterLast(s, [], s, LoopStep);
    assert Alone(n) == [LoopStep] + Alone(n - 1);
    assert [] + [LoopStep] == [LoopStep];
    AfterBoth(s, [LoopStep], DoLoop(s), Alone(n - 1));
  }

  lemma {:induction false} HeadOfQueue(s: State)
    requires Stored(s) && s.hand == [] && s.holder == Free && s.processed != s.pushed
    ensures |s.processed| < |s.pushed| && |s.queue| >= PTR_SIZE
    ensures PointerAt(s.queue[..PTR_SIZE]) == s.pushed[|s.processed|]
    ensures s.queue[PTR_SIZE..] == Encode(s.pushed[|s.processed| + 1..])
  {
    assert Taken(s) == s.processed;
    var rest := s.pushed[|s.processed|..];
    assert s.queue == Encode(rest);
    EncodeFirst(rest);
    PointerRoundTrip(rest[0]);
    assert rest[1..] == s.pushed[|s.processed| + 1..];
  }

  lemma {:induction false} RoundReads(s: State, p: pointer, n: nat)
    requires s.loop.Check? && s.holder == Free && n >= 3
    requires |s.queue| >= PTR_SIZE && PointerAt(s.queue[..PTR_SIZE]) == p
    ensures After(s, Alone(n)) ==
            After(s.(loop := GiveGot, holder := LoopThread, queue := s.queue[PTR_SIZE..], hand := [p]),
                  Alone(n - 3))
  {
    AloneFirst(s, n);
    AloneFirst(s.(loop := Take), n - 1);
    AloneFirst(s.(loop := Read, holder := LoopThread), n - 2);
  }

  lemma {:induction false} OneRound(s: State, p: pointer, n: nat)
    requires s.loop.Check? && s.holder == Free && s.hand == [] && n >= 5
    requires |s.queue| >= PTR_SIZE && PointerAt(s.queue[..PTR_SIZE]) == p
    ensures After(s, Alone(n)) ==
            After(s.(queue := s.queue[PTR_SIZE..], processed := s.processed + [p]), Alone(n - 5))
  {
    RoundReads(s, p, n);
    var s3 := s.(loop := GiveGot, holder := LoopThread, queue := s.queue[PTR_SIZE..], hand := [p]);
    AloneFirst(s3, n - 3);
    AloneFirst(s3.(loop := Process, holder := Free), n - 4);
  }

  ghost predicate Draining(s: State, n: nat) {
    && Stored(s) && s.hand == [] && s.holder == Free && s.loop.Check?
    && n == 5 * |s.pushed[|Taken(s)|..]| + 2
  }

  lemma {:induction false} DrainOne(s: State, n: nat) returns (t: State)
    requires Draining(s, n) && n != 2
    ensures After(s, Alone(n)) == After(t, Alone(n - 5))
    ensures Draining(t, n - 5)
    ensures t == s.(queue := t.queue, processed := t.processed)
  {
    HeadOfQueue(s);
    var p := s.pushed[|s.processed|];
    OneRound(s, p, n);
    t := s.(queue := s.queue[PTR_SIZE..], processed := s.processed + [p]);
    assert Taken(t) == t.processed && Taken(s) == s.processed;
    assert t.queue + [] == t.queue;
  }

  /** Left alone, a pass processes everything that was queued and blocks. */
  lemma {:induction false} PassDrains(s: State, n: nat)
    requires Draining(s, n)
    ensures After(s, Alone(n)) == Reached(s.(queue := [], processed := s.pushed, loop := Blocked))
    decreases n
  {
    if n == 2 {
      assert Taken(s) == s.processed == s.pushed && s.queue == [];
      EmptyRound(s, n);
    } else {
      var t := DrainOne(s, n);
      PassDrains(t, n - 5);
    }
  }

  lemma {:induction false} EmptyRound(s: State, n: nat)
    requires s.loop.Check? && s.queue == [] && n == 2
    ensures After(s, Alone(n)) == Reached(s.(loop := Blocked))
  {
    AloneFirst(s, n);
    AloneFirst(s.(loop := Timers), n - 1);
  }

  lemma {:induction false} LoopWakes(s: State, n: nat) returns (ctl: nat)
    requires s.loop.Blocked? && s.ctl > 0 && n >= 3
    ensures After(s, Alone(n)) == After(s.(loop := Check, flag := false, ctl := ctl), Alone(n - 3))
    ensures ctl < s.ctl
  {
    var s2 := s.(loop := Recv, flag := false);
    AloneFirst(s, n);
    AloneFirst(s.(loop := Reset), n - 1);
    AloneFirst(s2, n - 2);
    ctl := DoLoop(s2).ctl;
    assert DoLoop(s2) == s.(loop := Check, flag := false, ctl := ctl);
  }

  /** A byte on the socket is enough: a blocked loop that has one takes up
      everything that is queued. */
  lemma {:induction false} WokenLoopDrains(s: State) returns (n: nat, ctl: nat)
    requires Consistent(s) && s.holder == Free && s.loop.Blocked? && s.ctl > 0
    ensures ctl < s.ctl
    ensures After(s, Alone(n)) == Reached(s.(queue := [], processed := s.pushed, flag := false, ctl := ctl))
  {
    n := 5 * |s.pushed[|Taken(s)|..]| + 5;
    ctl := LoopWakes(s, n);
    PassDrains(s.(loop := Check, flag := false, ctl := ctl), n - 3);
  }

  /** And a timer or another socket frees a stuck loop: everything that is queued
      is processed and the flag is down again. */
  lemma {:induction false} OtherEventFrees(s: State) returns (n: nat)
    requires Consistent(s) && Stuck(s) && s.holder == Free
    ensures After(s, [OtherEvent] + Alone(n)) ==
            Reached(s.(queue := [], processed := s.pushed, flag := false))
  {
    n := 5 * |s.pushed[|Taken(s)|..]| + 4;
    var t := s.(loop := Check, flag := false);
    OtherEventLeadsIn(s, n);
    PassDrains(t, n - 2);
  }

  /** Up to the first look at the queue. */
  lemma {:induction false} OtherEventLeadsIn(s: State, n: nat)
    requires s.loop.Blocked? && s.ctl == 0 && n >= 2
    ensures After(s, [OtherEvent] + Alone(n)) == After(s.(loop := Check, flag := false), Alone(n - 2))
  {
    var s1 := s.(loop := Reset);
    var s2 := s.(loop := Recv, flag := false);
    AfterLast(s, [], s, OtherEvent);
    assert [] + [OtherEvent] == [OtherEvent];
    AfterBoth(s, [OtherEvent], s1, Alone(n));
    AloneFirst(s1, n);
    AloneFirst(s2, n - 1);
    assert DoLoop(s2) == s.(loop := Check, flag := false);
  }

  /** When the window is hit: one operator is pushed between the reset and the
      recv, and after the pass another; it stays in the queue, with the flag up
      and no byte to wake the loop. */
  lemma {:induction false} WakeUpCanBeLost(a: pointer, b: pointer)
    requires a != NULL_OP && b != NULL_OP
    ensures var run := Alone(1) + WholeCall(0, a, true) + Alone(8) + WholeCall(0, b, false);
            && After(Start, run).Reached?
            && var s := After(Start, run).value;
            && Stuck(s) && !Inside(s) && s.processed == [a] && s.queue == PointerBytes(b)
  {
    var s1 := DoLoop(Start);
    AfterLast(Start, [], Start, LoopStep);
    assert Alone(1) == [] + [LoopStep];
    WholeCallPushes(s1, 0, a);
    var s2 := After(s1, WholeCall(0, a, true)).value;
    AfterBoth(Start, Alone(1), s1, WholeCall(0, a, true));
    AloneFirst(s2, 8);
    var s3 := DoLoop(s2);
    assert Encode([a]) == PointerBytes(a) by { assert [a][1..] == []; assert Encode([]) == []; }
    assert s3.queue == PointerBytes(a) && Stored(s3) by {
      assert Taken(s3) == [] && s3.pushed == [a] && s3.pushed[0..] == [a];
      assert [] + PointerBytes(a) == PointerBytes(a) && PointerBytes(a) + [] == PointerBytes(a);
    }
    PassDrains(s3, 7);
    var s4 := s3.(queue := [], processed := s3.pushed, loop := Blocked);
    AfterBoth(Start, Alone(1) + WholeCall(0, a, true), s2, Alone(8));
    WholeCallPushes(s4, 0, b);
    AfterBoth(Start, Alone(1) + WholeCall(0, a, true) + Alone(8), s4, WholeCall(0, b, false));
    assert [] + PointerBytes(b) == PointerBytes(b);
  }
}

/** Session identity: connection ids that carry the index of their event loop,
    and session ids that carry the server, the connection and a name. */
module Session {
  import opened Bytes
  import opened Base64

  // ---- Connection ids ----

  const EVENT_LOOP_ID_MASK := 1_000_000
  const MAX_ID := 0x7FF_FFFF

  /** 32-bit arithmetic. */
  function Wrapped(x: int): int32 {
    Signed(x % TWO_32)
  }

  function ConnectionId(evlpid: int32, conid: int32): int32 {
    Wrapped(Wrapped(evlpid * EVENT_LOOP_ID_MASK) + Remainder(conid, EVENT_LOOP_ID_MASK))
  }

  function EventLoopId(conid: int32): int {
    Quotient(conid, EVENT_LOOP_ID_MASK)
  }

  /** The id before it is cut down to 32 bits. */
  function WideId(evlpid: nat, conid: nat): nat {
    evlpid * EVENT_LOOP_ID_MASK + conid % EVENT_LOOP_ID_MASK
  }

  lemma {:induction false} WrappedSum(x: int, y: int)
    ensures Wrapped(Wrapped(x) + y) == Wrapped(x + y)
  {
    var q := x / TWO_32;
    assert x == TWO_32 * q + x % TWO_32;
    var w := if x % TWO_32 >= TWO_31 then q + 1 else q;
    assert Wrapped(x) + y + TWO_32 * w == x + y;
    SameModulo(Wrapped(x) + y, w);
  }

  lemma {:induction false} SameModulo(a: int, k: int)
    ensures (a + TWO_32 * k) % TWO_32 == a % TWO_32
  {
    var q := a / TWO_32;
    assert a + TWO_32 * k == TWO_32 * (q + k) + a % TWO_32;
  }

  lemma {:induction false} ConnectionIdIsWide(evlpid: int32, conid: int32)
    requires evlpid >= 0 && conid >= 0
    ensures ConnectionId(evlpid, conid) == Wrapped(WideId(evlpid, conid))
    ensures WideId(evlpid, conid) < TWO_31 ==> ConnectionId(evlpid, conid) == WideId(evlpid, conid)
  {
    WrappedSum(evlpid * EVENT_LOOP_ID_MASK, Remainder(conid, EVENT_LOOP_ID_MASK));
  }

  lemma {:induction false} WideQuotient(q: nat, r: nat)
    requires r < EVENT_LOOP_ID_MASK
    ensures (q * EVENT_LOOP_ID_MASK + r) / EVENT_LOOP_ID_MASK == q
    ensures (q * EVENT_LOOP_ID_MASK + r) % EVENT_LOOP_ID_MASK == r
  {
  }

  /** The loop is recovered from the id exactly when the id fits 32 bits. */
  lemma {:induction false} LoopIsRecovered(evlpid: int32, conid: int32)
    requires evlpid >= 0 && conid >= 0
    ensures EventLoopId(ConnectionId(evlpid, conid)) == evlpid <==> WideId(evlpid, conid) < TWO_31
  {
    ConnectionIdIsWide(evlpid, conid);
    var w, c := WideId(evlpid, conid), ConnectionId(evlpid, conid);
    WideQuotient(evlpid, conid % EVENT_LOOP_ID_MASK);
    if w >= TWO_31 && EventLoopId(c) == evlpid {
      CutIdMoves(w, c);
      assert false;
    }
  }

  /** What 32 bits cut off is more than a loop's share of ids. */
  lemma {:induction false} CutIdMoves(w: nat, c: int32)
    requires w >= TWO_31 && c == Wrapped(w)
    ensures Quotient(c, EVENT_LOOP_ID_MASK) != w / EVENT_LOOP_ID_MASK
  {
    assert c < TWO_31 <= w;
    var k := w / TWO_32;
    assert w == TWO_32 * k + w % TWO_32;
    assert w - c >= TWO_32;
  }

  /** Loop indexes up to 2146 always fit; 2147 only for the first 483648 ids. */
  lemma {:induction false} LoopsThatFit(evlpid: nat, conid: nat)
    ensures evlpid <= 2146 ==> WideId(evlpid, conid) < TWO_31
    ensures evlpid == 2147 ==> (WideId(evlpid, conid) < TWO_31 <==> conid % EVENT_LOOP_ID_MASK < 483_648)
    ensures evlpid > 2147 ==> WideId(evlpid, conid) >= TWO_31
  {
  }

  // ---- Dispatch ----

  /** CDispatcher's choice of a loop. */
  function LoopFor(start: nat, threads: nat, id: nat): nat
    requires threads > 0
  {
    start + id % threads
  }

  /** The loops from `start` on take turns. */
  lemma {:induction false} LoopsTakeTurns(start: nat, threads: nat, round: nat, k: nat)
    requires k < threads
    ensures LoopFor(start, threads, round * threads + k) == start + k
  {
    var x := round * threads + k;
    Product(x / threads, threads);
    MultipleIsFar(round - x / threads, threads);
  }

  lemma {:induction false} Product(q: nat, n: nat)
    ensures q * n == n * q
  {
  }

  lemma {:induction false} MultipleIsFar(d: int, n: nat)
    ensures d == 0 || d * n >= n || d * n <= 0 - n
  {
    if d > 0 {
      assert (d - 1) * n >= 0;
    } else if d < 0 {
      assert (0 - d - 1) * n >= 0;
    }
  }

  /** Two dispatched connections get the same id exactly when their numbers
      agree modulo a million and modulo the number of threads. */
  lemma {:induction false} CollideExactly(start: nat, threads: nat, a: int32, b: int32)
    requires threads > 0 && start + threads - 1 <= 2146 && a >= 0 && b >= 0
    ensures ConnectionId(LoopFor(start, threads, a), a) == ConnectionId(LoopFor(start, threads, b), b) <==>
            a % EVENT_LOOP_ID_MASK == b % EVENT_LOOP_ID_MASK && a % threads == b % threads
  {
    var i, j := LoopFor(start, threads, a), LoopFor(start, threads, b);
    LoopsThatFit(i, a);
    LoopsThatFit(j, b);
    ConnectionIdIsWide(i, a);
    ConnectionIdIsWide(j, b);
    WideQuotient(i, a % EVENT_LOOP_ID_MASK);
    WideQuotient(j, b % EVENT_LOOP_ID_MASK);
  }

  /** Connections fewer than a million apart never collide. */
  lemma {:induction false} NearIdsDiffer(start: nat, threads: nat, a: int32, b: int32)
    requires threads > 0 && start + threads - 1 <= 2146 && 0 <= a < b < a + EVENT_LOOP_ID_MASK
    ensures ConnectionId(LoopFor(start, threads, a), a) != ConnectionId(LoopFor(start, threads, b), b)
  {
    CollideExactly(start, threads, a, b);
    var q := a / EVENT_LOOP_ID_MASK;
    assert a == q * EVENT_LOOP_ID_MASK + a % EVENT_LOOP_ID_MASK;
    if b < (q + 1) * EVENT_LOOP_ID_MASK {
      WideQuotient(q, b - q * EVENT_LOOP_ID_MASK);
    } else {
      WideQuotient(q + 1, b - (q + 1) * EVENT_LOOP_ID_MASK);
    }
  }

  class Connection {
    var id: int32

    constructor (id: int32)
      ensures this.id == id
    {
      this.id := id;
    }
  }

  /** CDispatcher with the operator queues of the loops it hands connections to. */
  class Dispatcher {
    const startThreadIdx: nat
    const threadCnt: nat
    var pending: seq<seq<Connection>>

    predicate Valid()
      reads this`pending
    {
      threadCnt > 0 && startThreadIdx + threadCnt <= |pending| <= 2147
    }

    constructor (start: nat, threads: nat, loops: nat)
      requires threads > 0 && start + threads <= loops <= 2147
      ensures Valid() && startThreadIdx == start && threadCnt == threads
      ensures pending == seq(loops, _ => [])
    {
      startThreadIdx, threadCnt := start, threads;
      pending := seq(loops, _ => []);
    }

    /** The connection is queued on the loop that its new id names. */
    method DispatchConnection(c: Connection)
      requires Valid() && c.id >= 0
      modifies this`pending, c
      ensures Valid()
      ensures c.id == ConnectionId(LoopFor(startThreadIdx, threadCnt, old(c.id)), old(c.id))
      ensures var l := EventLoopId(c.id);
              && startThreadIdx <= l < startThreadIdx + threadCnt
              && pending == old(pending)[l := old(pending)[l] + [c]]
    {
      var id: int := c.id;
      var idx := startThreadIdx + id % threadCnt;
      LoopsThatFit(idx, id);
      LoopIsRecovered(idx, id);
      c.id := ConnectionId(idx, id);
      pending := pending[idx := pending[idx] + [c]];
    }
  }

  // ---- The id counter ----

  /** atomicIncrement32, then back to 1 from the largest id. */
  function Counted(counter: nat): nat {
    if counter + 1 == MAX_ID then 1 else counter + 1
  }

  function CounterAfter(k: nat): (r: nat)
    ensures r < MAX_ID
  {
    if k == 0 then 0 else Counted(CounterAfter(k - 1))
  }

  /** The id of the k-th connection, counting from 1. */
  function IdOf(k: nat): (r: nat)
    requires k > 0
    ensures 1 <= r <= MAX_ID
  {
    CounterAfter(k - 1) + 1
  }

  class IdCounter {
    var id: nat
    ghost var issued: nat

    ghost predicate Valid()
      reads this
    {
      id == CounterAfter(issued)
    }

    constructor ()
      ensures Valid() && issued == 0
    {
      id, issued := 0, 0;
    }

    method Next() returns (r: nat)
      requires Valid()
      modifies this
      ensures Valid() && issued == old(issued) + 1 && r == IdOf(issued)
    {
      id := id + 1;
      r := id;
      if id == MAX_ID {
        id := 1;
      }
      issued := issued + 1;
    }
  }

  /** After the largest id the count goes on at 2: 1 is given only once. */
  lemma {:induction false} CounterInCycle(k: nat)
    ensures CounterAfter(k) == if k < MAX_ID then k else (k - MAX_ID) % (MAX_ID - 1) + 1
    decreases k
  {
    if k > 0 {
      CounterInCycle(k - 1);
      if k > MAX_ID {
        NextInCycle(k - MAX_ID);
      }
    }
  }

  lemma {:induction false} NextInCycle(n: nat)
    requires n > 0
    ensures n % (MAX_ID - 1) == if (n - 1) % (MAX_ID - 1) + 1 == MAX_ID - 1 then 0 else (n - 1) % (MAX_ID - 1) + 1
  {
    var q, r := (n - 1) / (MAX_ID - 1), (n - 1) % (MAX_ID - 1);
    assert n - 1 == (MAX_ID - 1) * q + r;
    if r + 1 == MAX_ID - 1 {
      assert n == (MAX_ID - 1) * (q + 1);
    } else {
      assert n == (MAX_ID - 1) * q + (r + 1);
    }
  }

  lemma {:induction false} IdsInCycle(k: nat)
    requires k > 0
    ensures IdOf(k) == if k <= MAX_ID then k else (k - MAX_ID - 1) % (MAX_ID - 1) + 2
    ensures 1 <= IdOf(k) <= MAX_ID
  {
    CounterInCycle(k - 1);
  }

  /** On one server, connections fewer than a million allocations apart have
      different connection ids, unless the counter wraps between them. */
  lemma {:induction false} AllocatedIdsDiffer(start: nat, threads: nat, j: nat, k: nat)
    requires threads > 0 && start + threads - 1 <= 2146
    requires 0 < j < k < j + EVENT_LOOP_ID_MASK && (k <= MAX_ID || IdOf(j) < IdOf(k))
    ensures ConnectionId(LoopFor(start, threads, IdOf(j)), IdOf(j)) !=
            ConnectionId(LoopFor(start, threads, IdOf(k)), IdOf(k))
  {
    IdsInCycle(j);
    IdsInCycle(k);
    IdsStayNear(j, k);
    NearIdsDiffer(start, threads, IdOf(j), IdOf(k));
  }

  lemma {:induction false} IdsStayNear(j: nat, k: nat)
    requires 0 < j <= k && (k <= MAX_ID || IdOf(j) < IdOf(k))
    ensures IdOf(k) - IdOf(j) <= k - j && (j < k <= MAX_ID ==> IdOf(j) < IdOf(k))
    decreases k - j
  {
    IdsInCycle(j);
    IdsInCycle(k);
    if k > MAX_ID {
      GrowsByAtMostOne(j, k);
    }
  }

  lemma {:induction false} GrowsByAtMostOne(j: nat, k: nat)
    requires 0 < j <= k
    ensures IdOf(k) - IdOf(j) <= k - j
    decreases k - j
  {
    if j < k {
      GrowsByAtMostOne(j, k - 1);
      assert CounterAfter(k - 1) <= CounterAfter(k - 2) + 1;
    }
  }

  // ---- Session ids ----

  const PREFIX := 12

  /** decorationName. */
  function SessionId(svid: int32, conid: int32, name: seq<byte>): seq<byte> {
    Encoded(HostBytes(svid) + HostBytes(conid)) + name
  }

  /** What getDecorationInfo takes out; a text whose prefix does not decode to
      eight bytes is read outside its bounds, or substr throws. */
  datatype Decoration = Decoration(svid: int32, conid: int32, name: seq<byte>) | Malformed

  function DecorationInfo(dn: seq<byte>): Decoration {
    if |dn| < PREFIX then Malformed
    else
      var buf := Decoded(dn[..PREFIX]);
      if |buf| < 8 then Malformed
      else Decoration(HostValue(buf[..4]), HostValue(buf[4..8]), dn[PREFIX..])
  }

  lemma {:induction false} SessionIdReadsBack(svid: int32, conid: int32, name: seq<byte>)
    ensures DecorationInfo(SessionId(svid, conid, name)) == Decoration(svid, conid, name)
  {
    var buf := HostBytes(svid) + HostBytes(conid);
    var dn := SessionId(svid, conid, name);
    assert |Encoded(buf)| == PREFIX;
    assert dn[..PREFIX] == Encoded(buf) && dn[PREFIX..] == name;
    DecodeUndoesEncode(buf);
    assert buf[..4] == HostBytes(svid) && buf[4..8] == HostBytes(conid);
    HostRoundTrip(svid);
    HostRoundTrip(conid);
  }

  lemma {:induction false} SessionIdsAreInjective(svid: int32, conid: int32, name: seq<byte>,
                                                 svid2: int32, conid2: int32, name2: seq<byte>)
    ensures SessionId(svid, conid, name) == SessionId(svid2, conid2, name2) <==>
            svid == svid2 && conid == conid2 && name == name2
  {
    SessionIdReadsBack(svid, conid, name);
    SessionIdReadsBack(svid2, conid2, name2);
  }

  method DecorationName(svid: int32, conid: int32, n: seq<byte>) returns (dn: seq<byte>)
    ensures dn == SessionId(svid, conid, n)
  {
    var buf := HostBytes(svid) + HostBytes(conid);
    var prefix := Base64Encode(buf);
    dn := prefix + n;
  }

  /** getConFromSessid on a server with its own id and number of loops. */
  datatype Lookup = Found(loop: nat, conid: int32, name: seq<byte>) | InvalidSession | BadText

  function Looked(ownId: int32, threadCount: int32, sessid: seq<byte>): Lookup {
    var d := DecorationInfo(sessid);
    if d.Malformed? then BadText
    else if d.svid != ownId then InvalidSession
    else
      var l := EventLoopId(d.conid);
      if l < 0 || l >= threadCount then InvalidSession else Found(l, d.conid, d.name)
  }

  method ConFromSessid(ownId: int32, threadCount: int32, sessid: seq<byte>) returns (r: Lookup)
    ensures r == Looked(ownId, threadCount, sessid)
  {
    if |sessid| < PREFIX {
      return BadText;
    }
    var buf := Base64Decode(sessid[..PREFIX]);
    if |buf| < 8 {
      return BadText;
    }
    var svid, conid := HostValue(buf[..4]), HostValue(buf[4..8]);
    if svid != ownId {
      return InvalidSession;
    }
    var evlpid := EventLoopId(conid);
    if evlpid < 0 || evlpid >= threadCount {
      return InvalidSession;
    }
    r := Found(evlpid, conid, sessid[PREFIX..]);
  }

  /** The number brought into the range of an int32. */
  function Int32Of(u: nat): int
    requires u < TWO_32
  {
    if u < TWO_31 then u else u - TWO_32
  }

  /** The eight bytes read as two numbers, the least significant bytes first. */
  lemma {:induction false} DecorationIs(dn: seq<byte>, b: seq<byte>)
    requires |dn| >= PREFIX && b == Decoded(dn[..PREFIX]) && |b| >= 8
    ensures var d := DecorationInfo(dn);
            && d.Decoration? && d.name == dn[PREFIX..]
            && d.svid == Int32Of(Number(b[3], b[2], b[1], b[0]))
            && d.conid == Int32Of(Number(b[7], b[6], b[5], b[4]))
  {
  }

  /** Whole parts of the mask fit into the id, from zero toward either side. */
  lemma {:induction false} LoopOfId(conid: int32, l: int)
    ensures conid >= 0 ==> (EventLoopId(conid) == l <==>
                              l * EVENT_LOOP_ID_MASK <= conid < (l + 1) * EVENT_LOOP_ID_MASK)
    ensures conid < 0 ==> (EventLoopId(conid) == l <==>
                             (l - 1) * EVENT_LOOP_ID_MASK < conid <= l * EVENT_LOOP_ID_MASK)
  {
  }

  /** Which texts are refused: those whose prefix does not make up eight bytes,
      those of another server, and those whose id is below the first loop or
      past the last. A negative id above minus a million counts for loop 0. */
  lemma {:induction false} LookedExactly(ownId: int32, threadCount: int32, sessid: seq<byte>)
    ensures var r := Looked(ownId, threadCount, sessid);
            && (r.BadText? <==> |sessid| < PREFIX || |Decoded(sessid[..PREFIX])| < 8)
            && (!r.BadText? ==>
                  var b := Decoded(sessid[..PREFIX]);
                  var conid := Int32Of(Number(b[7], b[6], b[5], b[4]));
                  (r.Found? <==>
                    && ownId == Int32Of(Number(b[3], b[2], b[1], b[0]))
                    && threadCount > 0
                    && 0 - EVENT_LOOP_ID_MASK < conid < threadCount * EVENT_LOOP_ID_MASK))
  {
    var d := DecorationInfo(sessid);
    if d.Decoration? {
      DecorationIs(sessid, Decoded(sessid[..PREFIX]));
      var l := EventLoopId(d.conid);
      LoopOfId(d.conid, l);
      assert d.conid < threadCount * EVENT_LOOP_ID_MASK || d.conid < 0 || l >= threadCount;
    }
  }

  /** What is found is what the text says. */
  lemma {:induction false} FoundIs(ownId: int32, threadCount: int32, sessid: seq<byte>)
    requires Looked(ownId, threadCount, sessid).Found?
    ensures var r, b := Looked(ownId, threadCount, sessid), Decoded(sessid[..PREFIX]);
            && r.conid == Int32Of(Number(b[7], b[6], b[5], b[4]))
            && r.name == sessid[PREFIX..]
            && r.loop < threadCount
            && (r.conid < 0 ==> r.loop == 0)
            && (r.conid >= 0 ==> r.loop * EVENT_LOOP_ID_MASK <= r.conid < (r.loop + 1) * EVENT_LOOP_ID_MASK)
  {
    DecorationIs(sessid, Decoded(sessid[..PREFIX]));
    var d := DecorationInfo(sessid);
    LoopOfId(d.conid, EventLoopId(d.conid));
  }

  /** A session id minted for a dispatched connection leads back to its loop, its
      id and its name on the server that minted it, and nowhere on others. */
  lemma {:induction false} SessionFindsLoop(svid: int32, ownId: int32, threadCount: int32,
                                           start: nat, threads: nat, id: int32, name: seq<byte>)
    requires threads > 0 && start + threads <= threadCount && start + threads - 1 <= 2146 && id >= 0
    ensures var l := LoopFor(start, threads, id);
            var conid := ConnectionId(l, id);
            Looked(ownId, threadCount, SessionId(svid, conid, name)) ==
              if svid == ownId then Found(l, conid, name) else InvalidSession
  {
    var l := LoopFor(start, threads, id);
    SessionIdReadsBack(svid, ConnectionId(l, id), name);
    LoopsThatFit(l, id);
    LoopIsRecovered(l, id);
  }
}

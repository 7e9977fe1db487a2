/** The loop's ordered set of timers, the timers each connection owns, and the
    pass that fires the ones that are due. Timer objects live at addresses; the
    set keeps addresses in the order of deadlines, as std::set with `less`. */
module Timers {
  import opened Bytes

  // ---- Time ----

  /** struct time_tv. */
  datatype Time = Time(sec: int, usec: int)

  const MILLION := 1_000_000

  function Micros(t: Time): int {
    t.sec * MILLION + t.usec
  }

  lemma {:induction false} RemainderIsSmall(a: int, b: int)
    requires b > 0
    ensures -b < Remainder(a, b) < b
    ensures a >= 0 ==> Remainder(a, b) >= 0
    ensures a <= 0 ==> Remainder(a, b) <= 0
  {
  }

  /** The lexicographic operator<. */
  predicate Before(a: Time, b: Time) {
    a.sec < b.sec || (a.sec == b.sec && a.usec < b.usec)
  }

  predicate Normal(t: Time) {
    0 <= t.usec < MILLION
  }

  /** On normal times the order is that of microseconds. */
  lemma {:induction false} BeforeIsEarlier(a: Time, b: Time)
    requires Normal(a) && Normal(b)
    ensures Before(a, b) <==> Micros(a) < Micros(b)
  {
  }

  /** setTimeOutAfter, given the clock's reading. */
  function Deadline(now: Time, ms: int32): Time {
    var usec := now.usec + Remainder(ms, 1000) * 1000;
    Time(now.sec + Quotient(ms, 1000) + Quotient(usec, MILLION), Remainder(usec, MILLION))
  }

  /** The deadline is exact for every delay, but only a non-negative part of a
      second keeps it normal. */
  lemma {:induction false} DeadlineIsExact(now: Time, ms: int32)
    requires Normal(now)
    ensures Micros(Deadline(now, ms)) == Micros(now) + 1000 * ms
    ensures Normal(Deadline(now, ms)) <==> now.usec + 1000 * Remainder(ms, 1000) >= 0
    ensures ms >= 0 ==> Normal(Deadline(now, ms))
  {
    RemainderIsSmall(ms, 1000);
    RemainderIsSmall(now.usec + Remainder(ms, 1000) * 1000, MILLION);
    assert ms == 1000 * Quotient(ms, 1000) + Remainder(ms, 1000);
  }

  /** How t compares with the normal times is how it lies to them in time. */
  ghost predicate OrderedInTime(t: Time) {
    forall b :: Normal(b) ==>
      (Before(t, b) <==> Micros(t) < Micros(b)) && (Before(b, t) <==> Micros(b) < Micros(t))
  }

  /** A deadline is in its place among normal deadlines exactly when the part of a
      second in the delay does not take the clock's microseconds below zero. */
  lemma {:induction false} OrderedExactly(now: Time, ms: int32)
    requires Normal(now)
    ensures OrderedInTime(Deadline(now, ms)) <==> now.usec + 1000 * Remainder(ms, 1000) >= 0
  {
    var t := Deadline(now, ms);
    DeadlineIsExact(now, ms);
    if Normal(t) {
      forall b | Normal(b)
        ensures (Before(t, b) <==> Micros(t) < Micros(b)) && (Before(b, t) <==> Micros(b) < Micros(t))
      {
        BeforeIsEarlier(t, b);
        BeforeIsEarlier(b, t);
      }
    } else {
      LastOfSecondBefore(now, ms);
    }
  }

  /** A deadline that is not normal has negative microseconds, and the last moment
      of the second before it, though no earlier, comes first. */
  lemma {:induction false} LastOfSecondBefore(now: Time, ms: int32)
    requires Normal(now) && !Normal(Deadline(now, ms))
    ensures var t := Deadline(now, ms);
            var b := Time(t.sec - 1, MILLION - 1);
            Normal(b) && Before(b, t) && Micros(t) <= Micros(b)
  {
    RemainderIsSmall(ms, 1000);
    RemainderIsSmall(now.usec + Remainder(ms, 1000) * 1000, MILLION);
  }

  /** After a negative delay the timer that is due first can come second. */
  lemma {:induction false} NegativeDelayMisorders()
    ensures var past := Deadline(Time(10, 0), -1);
            var next := Deadline(Time(9, 999_500), 0);
            Micros(past) < Micros(next) && Before(next, past)
  {
    assert Deadline(Time(10, 0), -1) == Time(10, -1000);
    assert Deadline(Time(9, 999_500), 0) == Time(9, 999_500);
  }

  /** tv_diff_ms. */
  function DiffMs(a: Time, b: Time): int {
    (a.sec - b.sec) * 1000 + Quotient(a.usec - b.usec, 1000)
  }

  /** The difference in milliseconds is off by less than one, either way. */
  lemma {:induction false} DiffMsIsClose(a: Time, b: Time)
    ensures -1000 < Micros(a) - Micros(b) - 1000 * DiffMs(a, b) < 1000
  {
    RemainderIsSmall(a.usec - b.usec, 1000);
  }

  // ---- The set ----

  type Address = nat

  datatype Status = Init | Started | Stopped

  /** ConnectionTimer. */
  datatype Timer = Timer(con: nat, id: int32, deadline: Time, status: Status)

  type Heap = map<Address, Timer>

  /** The functor `less`; a NULL pointer is never in the set. */
  predicate Less(h: Heap, a: Address, b: Address)
    requires a in h && b in h
  {
    Before(h[a].deadline, h[b].deadline) ||
    (!Before(h[b].deadline, h[a].deadline) && a < b)
  }

  ghost predicate Sorted(h: Heap, s: seq<Address>) {
    && (forall a :: a in s ==> a in h)
    && (forall i, j :: 0 <= i < j < |s| ==> Less(h, s[i], s[j]))
  }

  /** std::set::insert: nothing happens when an equivalent element is there. */
  function Inserted(h: Heap, s: seq<Address>, a: Address): seq<Address>
    requires a in h && forall b :: b in s ==> b in h
  {
    if s == [] then [a]
    else if Less(h, s[0], a) then [s[0]] + Inserted(h, s[1..], a)
    else if Less(h, a, s[0]) then [a] + s
    else s
  }

  /** std::set::erase by key: whatever is equivalent to it goes. */
  function Erased(h: Heap, s: seq<Address>, a: Address): seq<Address>
    requires a in h && forall b :: b in s ==> b in h
  {
    if s == [] then []
    else if Less(h, s[0], a) then [s[0]] + Erased(h, s[1..], a)
    else if Less(h, a, s[0]) then s
    else s[1..]
  }

  /** One step of the walk to the place. */
  lemma {:induction false} PastOne(h: Heap, s: seq<Address>, i: nat, a: Address)
    requires a in h && (forall b :: b in s ==> b in h) && i < |s| && Less(h, s[i], a)
    ensures s[..i] + Inserted(h, s[i..], a) == s[..i + 1] + Inserted(h, s[i + 1..], a)
    ensures s[..i] + Erased(h, s[i..], a) == s[..i + 1] + Erased(h, s[i + 1..], a)
  {
    var t := s[i..];
    assert t[0] == s[i] && t[1..] == s[i + 1..];
    MovedOver(s, i, Inserted(h, t[1..], a));
    MovedOver(s, i, Erased(h, t[1..], a));
  }

  lemma {:induction false} MovedOver(s: seq<Address>, i: nat, r: seq<Address>)
    requires i < |s|
    ensures s[..i] + ([s[i]] + r) == s[..i + 1] + r
  {
    assert s[..i + 1] == s[..i] + [s[i]];
  }

  /** The end of the walk. */
  lemma {:induction false} InsertedAt(h: Heap, s: seq<Address>, i: nat, a: Address)
    requires a in h && (forall b :: b in s ==> b in h) && i <= |s| && (i < |s| ==> !Less(h, s[i], a))
    ensures s[..i] + Inserted(h, s[i..], a)
            == if i == |s| || Less(h, a, s[i]) then s[..i] + [a] + s[i..] else s
  {
    assert s[..i] + s[i..] == s;
    if i < |s| && Less(h, a, s[i]) {
      assert s[..i] + ([a] + s[i..]) == s[..i] + [a] + s[i..];
    }
  }

  lemma {:induction false} ErasedAt(h: Heap, s: seq<Address>, i: nat, a: Address)
    requires a in h && (forall b :: b in s ==> b in h) && i <= |s| && (i < |s| ==> !Less(h, s[i], a))
    ensures s[..i] + Erased(h, s[i..], a)
            == if i == |s| || Less(h, a, s[i]) then s else s[..i] + s[i + 1..]
  {
    assert s[..i] + s[i..] == s;
    if i < |s| {
      assert s[i..][1..] == s[i + 1..];
    }
  }

  lemma {:induction false} SortedTail(h: Heap, s: seq<Address>)
    requires Sorted(h, s) && s != []
    ensures Sorted(h, s[1..]) && s[0] !in s[1..]
    ensures forall b :: b in s[1..] ==> Less(h, s[0], b)
  {
    var t := s[1..];
    forall b | b in t ensures Less(h, s[0], b) {
      var i :| 0 <= i < |t| && t[i] == b;
      assert Less(h, s[0], s[i + 1]);
    }
  }

  lemma {:induction false} SortedCons(h: Heap, a: Address, s: seq<Address>)
    requires Sorted(h, s) && a in h && forall b :: b in s ==> Less(h, a, b)
    ensures Sorted(h, [a] + s)
  {
  }

  lemma {:induction false} LessTransitive(h: Heap, a: Address, b: Address, c: Address)
    requires a in h && b in h && c in h && Less(h, a, b) && Less(h, b, c)
    ensures Less(h, a, c)
  {
  }

  lemma {:induction false} InsertedSorts(h: Heap, s: seq<Address>, a: Address)
    requires Sorted(h, s) && a in h
    ensures Sorted(h, Inserted(h, s, a))
    ensures forall b :: b in Inserted(h, s, a) <==> b in s || b == a
    ensures s != [] && Less(h, s[0], a) ==> Inserted(h, s, a)[0] == s[0]
  {
    if s == [] {
    } else {
      SortedTail(h, s);
      if Less(h, s[0], a) {
        InsertedSorts(h, s[1..], a);
        SortedCons(h, s[0], Inserted(h, s[1..], a));
      } else if Less(h, a, s[0]) {
        forall b | b in s ensures Less(h, a, b) {
          if b != s[0] {
            LessTransitive(h, a, s[0], b);
          }
        }
        SortedCons(h, a, s);
      }
    }
  }

  lemma {:induction false} ErasedRemoves(h: Heap, s: seq<Address>, a: Address)
    requires Sorted(h, s) && a in h
    ensures Sorted(h, Erased(h, s, a))
    ensures forall b :: b in Erased(h, s, a) <==> b in s && b != a
  {
    if s == [] {
    } else {
      SortedTail(h, s);
      if Less(h, s[0], a) {
        ErasedRemoves(h, s[1..], a);
        SortedCons(h, s[0], Erased(h, s[1..], a));
      } else if Less(h, a, s[0]) {
        forall b | b in s ensures Less(h, a, b) {
          if b != s[0] {
            LessTransitive(h, a, s[0], b);
          }
        }
      }
    }
  }

  /** The order only looks at the timers in the set. */
  lemma {:induction false} SortedElsewhere(h: Heap, g: Heap, s: seq<Address>)
    requires Sorted(h, s) && forall a :: a in s ==> a in g && g[a].deadline == h[a].deadline
    ensures Sorted(g, s)
  {
    forall i, j | 0 <= i < j < |s| ensures Less(g, s[i], s[j]) {
      assert s[i] in s && s[j] in s;
      assert Less(h, s[i], s[j]);
    }
  }

  // ---- Connections and their timers ----

  /** The loop's view: timer objects, the timers of each connection that is
      attached to the loop, and the set. */
  datatype World = World(heap: Heap, connections: map<nat, map<int32, Address>>, armed: seq<Address>)

  /** A timer is reached from exactly one live connection, under its id. */
  ghost predicate Owned(w: World) {
    && (forall a :: a in w.heap ==>
          var t := w.heap[a];
          t.con in w.connections && t.id in w.connections[t.con] && w.connections[t.con][t.id] == a)
    && (forall c, id :: c in w.connections && id in w.connections[c] ==>
          var a := w.connections[c][id];
          a in w.heap && w.heap[a].con == c && w.heap[a].id == id)
  }

  /** The set holds exactly the started timers, in order. */
  ghost predicate ArmedExactly(w: World) {
    && Sorted(w.heap, w.armed)
    && (forall a :: a in w.armed <==> a in w.heap && w.heap[a].status.Started?)
  }

  ghost predicate Sound(w: World) {
    Owned(w) && ArmedExactly(w)
  }

  /** An address for a new object; every free one is its own hint. */
  function Fresh(used: set<Address>, hint: Address): (r: Address)
    ensures r !in used
    ensures hint !in used ==> r == hint
    ensures r >= hint
    decreases |used|
  {
    if hint !in used then hint else Fresh(used - {hint}, hint + 1)
  }

  /** What a callback, or anything else on the loop thread, may do. */
  datatype Action =
    | Create(con: nat)
    | StartTimer(con: nat, id: int32, ms: int32, now: Time, hint: Address)
    | StopTimer(con: nat, id: int32)
    | ClearTimers(con: nat)
    | Destroy(con: nat)

  predicate Has(w: World, con: nat, id: int32) {
    con in w.connections && id in w.connections[con]
  }

  /** The address of the timer that startTimer starts. */
  function Target(w: World, con: nat, id: int32, hint: Address): Address {
    if Has(w, con, id) then w.connections[con][id] else Fresh(w.heap.Keys, hint)
  }

  /** The set without the timer at a, if there is one. */
  function Rest(w: World, a: Address): (r: seq<Address>)
    requires Sound(w)
    ensures Sorted(w.heap, r)
    ensures forall b :: b in r <==> b in w.armed && b != a
  {
    if a in w.heap then
      ErasedRemoves(w.heap, w.armed, a);
      Erased(w.heap, w.armed, a)
    else w.armed
  }

  /** Everything but timer (con, id) stays; that one is armed with a new deadline. */
  function AfterStart(w: World, con: nat, id: int32, ms: int32, now: Time, hint: Address): World
    requires Sound(w)
  {
    if con !in w.connections then w
    else
      var a := Target(w, con, id, hint);
      var heap := w.heap[a := Timer(con, id, Deadline(now, ms), Started)];
      var mine: map<int32, Address> := w.connections[con][id := a];
      World(heap, w.connections[con := mine], Inserted(heap, Rest(w, a), a))
  }

  function AfterStop(w: World, con: nat, id: int32): World
    requires Sound(w)
  {
    if !Has(w, con, id) then w
    else
      var a := w.connections[con][id];
      w.(heap := w.heap[a := w.heap[a].(status := Stopped)], armed := Erased(w.heap, w.armed, a))
  }

  /** What is left of the set when the timers of a connection are gone. */
  function Without(h: Heap, s: seq<Address>, con: nat): seq<Address>
    requires forall a :: a in s ==> a in h
  {
    if s == [] then []
    else if h[s[0]].con == con then Without(h, s[1..], con)
    else [s[0]] + Without(h, s[1..], con)
  }

  function Others(h: Heap, con: nat): Heap {
    map a | a in h && h[a].con != con :: h[a]
  }

  function AfterClear(w: World, con: nat): World
    requires Sound(w)
  {
    if con !in w.connections then w
    else World(Others(w.heap, con), w.connections[con := map[]], Without(w.heap, w.armed, con))
  }

  function Apply(w: World, act: Action): World
    requires Sound(w)
  {
    match act
    case Create(con) => if con in w.connections then w else w.(connections := w.connections[con := map[]])
    case StartTimer(con, id, ms, now, hint) => AfterStart(w, con, id, ms, now, hint)
    case StopTimer(con, id) => AfterStop(w, con, id)
    case ClearTimers(con) => AfterClear(w, con)
    case Destroy(con) => var v := AfterClear(w, con); v.(connections := v.connections - {con})
  }

  lemma {:induction false} StartKeepsOwned(w: World, con: nat, id: int32, ms: int32, now: Time, hint: Address)
    requires Sound(w)
    ensures Owned(AfterStart(w, con, id, ms, now, hint))
  {
  }

  lemma {:induction false} StartKeepsArmed(w: World, con: nat, id: int32, ms: int32, now: Time, hint: Address)
    requires Sound(w)
    ensures ArmedExactly(AfterStart(w, con, id, ms, now, hint))
  {
    if con in w.connections {
      var a := Target(w, con, id, hint);
      var heap := w.heap[a := Timer(con, id, Deadline(now, ms), Started)];
      SortedElsewhere(w.heap, heap, Rest(w, a));
      InsertedSorts(heap, Rest(w, a), a);
    }
  }

  lemma {:induction false} StopKeepsOwned(w: World, con: nat, id: int32)
    requires Sound(w)
    ensures Owned(AfterStop(w, con, id))
  {
  }

  lemma {:induction false} StopKeepsSound(w: World, con: nat, id: int32)
    requires Sound(w)
    ensures Sound(AfterStop(w, con, id))
  {
    StopKeepsOwned(w, con, id);
    if Has(w, con, id) {
      var a := w.connections[con][id];
      ErasedRemoves(w.heap, w.armed, a);
      SortedElsewhere(w.heap, AfterStop(w, con, id).heap, Erased(w.heap, w.armed, a));
    }
  }

  lemma {:induction false} WithoutKeepsRest(h: Heap, s: seq<Address>, con: nat)
    requires Sorted(h, s)
    ensures Sorted(h, Without(h, s, con))
    ensures forall a :: a in Without(h, s, con) <==> a in s && h[a].con != con
  {
    if s != [] {
      SortedTail(h, s);
      WithoutKeepsRest(h, s[1..], con);
      if h[s[0]].con != con {
        SortedCons(h, s[0], Without(h, s[1..], con));
      }
    }
  }

  lemma {:induction false} ClearKeepsSound(w: World, con: nat)
    requires Sound(w)
    ensures Sound(AfterClear(w, con))
    ensures forall a :: a in AfterClear(w, con).heap && con in w.connections ==> AfterClear(w, con).heap[a].con != con
  {
    if con in w.connections {
      WithoutKeepsRest(w.heap, w.armed, con);
      SortedElsewhere(w.heap, Others(w.heap, con), Without(w.heap, w.armed, con));
    }
  }

  lemma {:induction false} ApplyKeepsSound(w: World, act: Action)
    requires Sound(w)
    ensures Sound(Apply(w, act))
  {
    if act.StartTimer? {
      StartKeepsOwned(w, act.con, act.id, act.ms, act.now, act.hint);
      StartKeepsArmed(w, act.con, act.id, act.ms, act.now, act.hint);
    } else if act.StopTimer? {
      StopKeepsSound(w, act.con, act.id);
    } else if act.ClearTimers? || act.Destroy? {
      ClearKeepsSound(w, act.con);
    }
  }

  // ---- Firing ----

  /** The first timer leaves the set and its status is STOP before the callback. */
  function AfterPop(w: World): World
    requires Sound(w) && w.armed != []
  {
    var a := w.armed[0];
    assert a in w.armed;
    w.(heap := w.heap[a := w.heap[a].(status := Stopped)], armed := w.armed[1..])
  }

  lemma {:induction false} PopKeepsSound(w: World)
    requires Sound(w) && w.armed != []
    ensures Sound(AfterPop(w))
  {
    var a := w.armed[0];
    assert a in w.armed;
    SortedTail(w.heap, w.armed);
    SortedElsewhere(w.heap, AfterPop(w).heap, w.armed[1..]);
    forall b ensures b in w.armed[1..] <==> b in w.armed && b != a {
      if b in w.armed && b != a {
        var i :| 0 <= i < |w.armed| && w.armed[i] == b;
        assert w.armed[1..][i - 1] == b;
      }
    }
  }

  function Script(w: World, acts: seq<Action>): (r: World)
    requires Sound(w)
    ensures Sound(r)
    decreases |acts|
  {
    if acts == [] then w
    else
      ApplyKeepsSound(w, acts[0]);
      Script(Apply(w, acts[0]), acts[1..])
  }

  /** One timer fired: the world before, and the clock's reading. */
  datatype Firing = Firing(before: World, now: Time)

  datatype Outcome = Outcome(world: World, fired: seq<Firing>, wait: int)

  /** processTimers from its i-th iteration on, for any readings of the clock
      and any callbacks. */
  function Pass(w: World, clock: nat -> Time, callback: nat -> seq<Action>, i: nat, cap: int): Outcome
    requires Sound(w)
    decreases cap - i
  {
    if i >= cap || w.armed == [] then Outcome(w, [], 0)
    else
      assert w.armed[0] in w.armed;
      var dif := DiffMs(w.heap[w.armed[0]].deadline, clock(i));
      if dif > 0 then Outcome(w, [], dif)
      else
        PopKeepsSound(w);
        var rest := Pass(Script(AfterPop(w), callback(i)), clock, callback, i + 1, cap);
        Outcome(rest.world, [Firing(w, clock(i))] + rest.fired, rest.wait)
  }

  /** The fired timer is the first of all in the set and at most 1 ms early. */
  ghost predicate Due(f: Firing) {
    && Sound(f.before) && f.before.armed != [] && f.before.armed[0] in f.before.heap
    && var a := f.before.armed[0];
    && (forall b :: b in f.before.armed && b != a ==> b in f.before.heap && Less(f.before.heap, a, b))
    && Micros(f.before.heap[a].deadline) < Micros(f.now) + 1000
  }

  lemma {:induction false} FirstIsDue(w: World, now: Time)
    requires Sound(w) && w.armed != [] && w.armed[0] in w.heap
    requires DiffMs(w.heap[w.armed[0]].deadline, now) <= 0
    ensures Due(Firing(w, now))
  {
    SortedTail(w.heap, w.armed);
    DiffMsIsClose(w.heap[w.armed[0]].deadline, now);
  }

  /** A pass keeps the set exact, fires at most cap timers, and each of them was
      the first of the set at that moment and due. */
  lemma {:induction false} PassFiresDue(w: World, clock: nat -> Time, callback: nat -> seq<Action>, i: nat, cap: int)
    requires Sound(w)
    ensures var o := Pass(w, clock, callback, i, cap);
            && Sound(o.world)
            && (forall f :: f in o.fired ==> Due(f))
            && (i <= cap ==> i + |o.fired| <= cap)
    decreases cap - i
  {
    if i < cap && w.armed != [] {
      assert w.armed[0] in w.armed;
      if DiffMs(w.heap[w.armed[0]].deadline, clock(i)) <= 0 {
        PopKeepsSound(w);
        FirstIsDue(w, clock(i));
        PassFiresDue(Script(AfterPop(w), callback(i)), clock, callback, i + 1, cap);
      }
    }
  }

  /** What the returned wait says of the world the pass leaves behind. */
  ghost predicate WaitTells(w: World, wait: int, now: Time) {
    && Sound(w)
    && (wait == 0 <==> w.armed == [])
    && (w.armed != [] ==>
          && w.armed[0] in w.heap
          && wait > 0
          && -1000 < Micros(w.heap[w.armed[0]].deadline) - Micros(now) - 1000 * wait < 1000)
  }

  /** The same after n iterations out of cap. */
  ghost predicate Tells(w: World, wait: int, clock: nat -> Time, n: nat, cap: int) {
    if n < cap then WaitTells(w, wait, clock(n)) else wait == 0
  }

  /** A pass that fires nothing. */
  lemma {:induction false} PassEnds(w: World, clock: nat -> Time, callback: nat -> seq<Action>, i: nat, cap: int,
                                    o: Outcome)
    requires Sound(w) && o == Pass(w, clock, callback, i, cap) && (w.armed != [] ==> w.armed[0] in w.heap)
    requires i >= cap || w.armed == [] || DiffMs(w.heap[w.armed[0]].deadline, clock(i)) > 0
    ensures Tells(o.world, o.wait, clock, i + |o.fired|, cap)
  {
    if i < cap && w.armed != [] {
      DiffMsIsClose(w.heap[w.armed[0]].deadline, clock(i));
    }
  }

  /** Below the cap the wait is 0 exactly when the set is empty, and otherwise
      within 1 ms of the time to the first deadline. At the cap it is 0 although
      timers may be left. */
  lemma {:induction false} PassWaits(w: World, clock: nat -> Time, callback: nat -> seq<Action>, i: nat, cap: int,
                                     o: Outcome, n: nat)
    requires Sound(w) && o == Pass(w, clock, callback, i, cap) && n == i + |o.fired|
    ensures Tells(o.world, o.wait, clock, n, cap)
    decreases cap - i
  {
    assert w.armed != [] ==> w.armed[0] in w.armed;
    if i < cap && w.armed != [] && DiffMs(w.heap[w.armed[0]].deadline, clock(i)) <= 0 {
      var next, rest := PassStep(w, clock, callback, i, cap, o);
      PassWaits(next, clock, callback, i + 1, cap, rest, n);
    } else {
      PassEnds(w, clock, callback, i, cap, o);
    }
  }

  /** One iteration that fires. */
  lemma {:induction false} PassStep(w: World, clock: nat -> Time, callback: nat -> seq<Action>, i: nat, cap: int,
                                    o: Outcome)
      returns (next: World, rest: Outcome)
    requires Sound(w) && i < cap && w.armed != [] && w.armed[0] in w.heap
    requires DiffMs(w.heap[w.armed[0]].deadline, clock(i)) <= 0
    requires o == Pass(w, clock, callback, i, cap)
    ensures next == Script(AfterPop(w), callback(i)) && Sound(next)
    ensures rest == Pass(next, clock, callback, i + 1, cap)
    ensures o.world == rest.world && o.wait == rest.wait
    ensures o.fired == [Firing(w, clock(i))] + rest.fired
    ensures i + |o.fired| == i + 1 + |rest.fired|
  {
    PopKeepsSound(w);
    next := Script(AfterPop(w), callback(i));
    rest := Pass(next, clock, callback, i + 1, cap);
  }

  /** The first n timers of the set are due when the pass comes to them, from its
      i-th reading of the clock on. */
  ghost predicate DueInTurn(w: World, clock: nat -> Time, i: nat, n: int)
    requires n <= |w.armed| && forall a :: a in w.armed ==> a in w.heap
  {
    forall k :: 0 <= k < n ==> DiffMs(w.heap[w.armed[k]].deadline, clock(i + k)) <= 0
  }

  /** With callbacks that do nothing, the caller is told to wait for ever although
      timers are left exactly when there are more timers than the cap allows and
      all up to the cap are due. */
  lemma {:induction false} CapLeavesTimersExactly(w: World, clock: nat -> Time, callback: nat -> seq<Action>,
                                                  i: nat, cap: int, o: Outcome)
    requires Sound(w) && (forall k :: callback(k) == []) && o == Pass(w, clock, callback, i, cap)
    ensures o.wait == 0 && o.world.armed != [] <==>
            w.armed != [] && cap - i < |w.armed| && DueInTurn(w, clock, i, cap - i)
    decreases cap - i
  {
    if i < cap && w.armed != [] {
      assert w.armed[0] in w.armed;
      if DiffMs(w.heap[w.armed[0]].deadline, clock(i)) <= 0 {
        var next, rest := PassStep(w, clock, callback, i, cap, o);
        assert next == AfterPop(w);
        CapLeavesTimersExactly(next, clock, callback, i + 1, cap, rest);
        if cap - i < |w.armed| {
          DueAfterPop(w, clock, i, cap - i);
        }
      } else if cap - i < |w.armed| {
        assert w.armed[0] in w.heap && clock(i + 0) == clock(i);
      }
    }
  }

  lemma {:induction false} DueAfterPop(w: World, clock: nat -> Time, i: nat, n: nat)
    requires Sound(w) && 0 < n <= |w.armed| && w.armed[0] in w.heap
    requires DiffMs(w.heap[w.armed[0]].deadline, clock(i)) <= 0
    requires Sound(AfterPop(w))
    ensures DueInTurn(w, clock, i, n) <==> DueInTurn(AfterPop(w), clock, i + 1, n - 1)
  {
    var v := AfterPop(w);
    forall k | 0 <= k < n - 1
      ensures v.armed[k] in v.heap && v.armed[k] in w.heap
      ensures v.heap[v.armed[k]].deadline == w.heap[w.armed[k + 1]].deadline && i + 1 + k == i + (k + 1)
    {
      assert v.armed[k] == w.armed[k + 1] && w.armed[k + 1] in w.armed;
    }
    if DueInTurn(w, clock, i, n) {
      forall k | 0 <= k < n - 1 ensures DiffMs(v.heap[v.armed[k]].deadline, clock(i + 1 + k)) <= 0 {
        assert DiffMs(w.heap[w.armed[k + 1]].deadline, clock(i + (k + 1))) <= 0;
      }
    }
    if DueInTurn(v, clock, i + 1, n - 1) {
      forall k | 0 <= k < n ensures DiffMs(w.heap[w.armed[k]].deadline, clock(i + k)) <= 0 {
        if k > 0 {
          assert DiffMs(v.heap[v.armed[k - 1]].deadline, clock(i + 1 + (k - 1))) <= 0;
        }
      }
    }
  }

  /** The smallest case: two timers, the first one due, and a cap of 1. */
  lemma {:induction false} CapLeavesTimers(w: World, clock: nat -> Time, callback: nat -> seq<Action>)
    requires Sound(w) && |w.armed| >= 2 && (forall k :: callback(k) == []) && w.armed[0] in w.heap
    requires DiffMs(w.heap[w.armed[0]].deadline, clock(0)) <= 0
    ensures var o := Pass(w, clock, callback, 0, 1);
            o.wait == 0 && o.world.armed != []
  {
    assert DueInTurn(w, clock, 0, 1);
    CapLeavesTimersExactly(w, clock, callback, 0, 1, Pass(w, clock, callback, 0, 1));
  }

  ghost predicate AllNormal(w: World) {
    forall a :: a in w.heap ==> Normal(w.heap[a].deadline)
  }

  /** Below the cap nothing that is due is left, if all deadlines are normal. */
  lemma {:induction false} NothingDueIsLeft(w: World, clock: nat -> Time, callback: nat -> seq<Action>, cap: int)
    requires Sound(w)
    ensures var o := Pass(w, clock, callback, 0, cap);
            |o.fired| < cap && AllNormal(o.world) ==>
              forall a :: a in o.world.armed ==>
                a in o.world.heap && Micros(o.world.heap[a].deadline) > Micros(clock(|o.fired|))
  {
    var o := Pass(w, clock, callback, 0, cap);
    PassWaits(w, clock, callback, 0, cap, o, |o.fired|);
    if |o.fired| < cap && AllNormal(o.world) && o.world.armed != [] {
      var h, s := o.world.heap, o.world.armed;
      SortedTail(h, s);
      forall a | a in s ensures a in h && Micros(h[a].deadline) >= Micros(h[s[0]].deadline) {
        if a != s[0] {
          assert Less(h, s[0], a);
          BeforeIsEarlier(h[a].deadline, h[s[0]].deadline);
          BeforeIsEarlier(h[s[0]].deadline, h[a].deadline);
        }
      }
    }
  }

  /** An action that gives a delay gives it from a normal clock and not into the past. */
  predicate Forward(act: Action) {
    act.StartTimer? ==> Normal(act.now) && act.ms >= 0
  }

  lemma {:induction false} ForwardKeepsNormal(w: World, act: Action)
    requires Sound(w) && AllNormal(w) && Forward(act)
    ensures AllNormal(Apply(w, act))
  {
    if act.StartTimer? {
      DeadlineIsExact(act.now, act.ms);
    }
  }

  /** What happens on a loop thread: an action, or a pass with its readings of the
      clock and its callbacks. */
  datatype Event = Act(act: Action) | Fires(clock: nat -> Time, callback: nat -> seq<Action>, cap: int)

  /** The world a run leads to, and all timers fired on the way. */
  datatype History = History(world: World, fired: seq<Firing>)

  function Ran(events: seq<Event>): (r: History)
    ensures Sound(r.world)
  {
    if events == [] then History(World(map[], map[], []), [])
    else
      var n := |events| - 1;
      Happened(Ran(events[..n]), events[n])
  }

  function Happened(h: History, event: Event): (r: History)
    requires Sound(h.world)
    ensures Sound(r.world)
  {
    match event
    case Act(act) =>
      ApplyKeepsSound(h.world, act);
      History(Apply(h.world, act), h.fired)
    case Fires(clock, callback, cap) =>
      PassFiresDue(h.world, clock, callback, 0, cap);
      var o := Pass(h.world, clock, callback, 0, cap);
      History(o.world, h.fired + o.fired)
  }

  ghost predicate AllForward(event: Event) {
    if event.Act? then Forward(event.act) else forall k :: ForwardScript(event.callback(k))
  }

  predicate ForwardScript(acts: seq<Action>) {
    forall act :: act in acts ==> Forward(act)
  }

  /** Over every run of actions and passes the set holds exactly the started timers
      in order, every timer that fired was the first of the set and due, and delays
      that are not negative keep all deadlines normal. */
  lemma {:induction false} EveryRunIsExact(events: seq<Event>)
    ensures var r := Ran(events);
            && Sound(r.world)
            && (forall f :: f in r.fired ==> Due(f))
            && ((forall i :: 0 <= i < |events| ==> AllForward(events[i])) ==> AllNormal(r.world))
  {
    if events != [] {
      var n := |events| - 1;
      EveryRunIsExact(events[..n]);
      EventKeeps(Ran(events[..n]), events[n]);
    }
  }

  lemma {:induction false} EventKeeps(h: History, event: Event)
    requires Sound(h.world) && forall f :: f in h.fired ==> Due(f)
    ensures forall f :: f in Happened(h, event).fired ==> Due(f)
    ensures AllNormal(h.world) && AllForward(event) ==> AllNormal(Happened(h, event).world)
  {
    if event.Fires? {
      PassFiresDue(h.world, event.clock, event.callback, 0, event.cap);
      if AllNormal(h.world) && AllForward(event) {
        PassKeepsNormal(h.world, event.clock, event.callback, 0, event.cap);
      }
    } else if AllNormal(h.world) && Forward(event.act) {
      ForwardKeepsNormal(h.world, event.act);
    }
  }

  lemma {:induction false} PassKeepsNormal(w: World, clock: nat -> Time, callback: nat -> seq<Action>, i: nat, cap: int)
    requires Sound(w) && AllNormal(w) && forall k :: ForwardScript(callback(k))
    ensures AllNormal(Pass(w, clock, callback, i, cap).world)
    decreases cap - i
  {
    assert w.armed != [] ==> w.armed[0] in w.armed;
    if i < cap && w.armed != [] && DiffMs(w.heap[w.armed[0]].deadline, clock(i)) <= 0 {
      var next, rest := PassStep(w, clock, callback, i, cap, Pass(w, clock, callback, i, cap));
      FiringKeepsNormal(w, callback(i));
      PassKeepsNormal(next, clock, callback, i + 1, cap);
    }
  }

  lemma {:induction false} FiringKeepsNormal(w: World, acts: seq<Action>)
    requires Sound(w) && w.armed != [] && AllNormal(w) && ForwardScript(acts)
    ensures Sound(AfterPop(w)) && AllNormal(Script(AfterPop(w), acts))
  {
    PopKeepsSound(w);
    assert w.armed[0] in w.armed;
    ScriptKeepsNormal(AfterPop(w), acts);
  }

  lemma {:induction false} ScriptKeepsNormal(w: World, acts: seq<Action>)
    requires Sound(w) && AllNormal(w) && ForwardScript(acts)
    ensures AllNormal(Script(w, acts))
    decreases |acts|
  {
    if acts != [] {
      assert acts[0] in acts;
      ForwardKeepsNormal(w, acts[0]);
      ApplyKeepsSound(w, acts[0]);
      ScriptKeepsNormal(Apply(w, acts[0]), acts[1..]);
    }
  }

  /** What startTimer is for: exactly that timer is armed, with that deadline. */
  lemma {:induction false} StartArms(w: World, con: nat, id: int32, ms: int32, now: Time, hint: Address)
    requires Sound(w) && con in w.connections
    ensures var v := AfterStart(w, con, id, ms, now, hint);
            && Has(v, con, id)
            && var a := v.connections[con][id];
            && a in v.armed && v.heap[a].deadline == Deadline(now, ms)
            && (forall b :: b != a ==> (b in v.armed <==> b in w.armed))
            && (forall b :: b != a && b in w.heap ==> b in v.heap && v.heap[b] == w.heap[b])
  {
    StartKeepsArmed(w, con, id, ms, now, hint);
    var v := AfterStart(w, con, id, ms, now, hint);
    var a := Target(w, con, id, hint);
    assert v.connections[con][id] == a && v.heap[a].status.Started?;
  }

  /** Stopping disarms it and nothing else; a connection that goes takes all of
      its timers along. */
  lemma {:induction false} StopDisarms(w: World, con: nat, id: int32)
    requires Sound(w) && Has(w, con, id)
    ensures var v := AfterStop(w, con, id);
            forall b :: b in v.armed <==> b in w.armed && b != w.connections[con][id]
  {
    ErasedRemoves(w.heap, w.armed, w.connections[con][id]);
  }

  /** Clearing takes exactly the timers of that connection, which stays. */
  lemma {:induction false} ClearTakesTimers(w: World, con: nat)
    requires Sound(w)
    ensures var v := Apply(w, ClearTimers(con));
            && v.connections == (if con in w.connections then w.connections[con := map[]] else w.connections)
            && (forall a :: a in v.armed <==> a in w.armed && w.heap[a].con != con)
            && (forall a :: a in v.heap <==> a in w.heap && w.heap[a].con != con)
            && (forall a :: a in v.heap ==> v.heap[a] == w.heap[a])
  {
    if con in w.connections {
      WithoutKeepsRest(w.heap, w.armed, con);
    }
  }

  /** A new connection has no timers, an old one keeps its own, and nothing else changes. */
  lemma {:induction false} CreateAttaches(w: World, con: nat)
    requires Sound(w)
    ensures var v := Apply(w, Create(con));
            && v.heap == w.heap && v.armed == w.armed && v.connections.Keys == w.connections.Keys + {con}
            && (con !in w.connections ==> v.connections[con] == map[])
            && forall c :: c in w.connections ==> v.connections[c] == w.connections[c]
  {
  }

  lemma {:induction false} DestroyTakesTimers(w: World, con: nat)
    requires Sound(w) && con in w.connections
    ensures var v := Apply(w, Destroy(con));
            && con !in v.connections
            && (forall a :: a in v.armed <==> a in w.armed && w.heap[a].con != con)
            && (forall a :: a in v.heap <==> a in w.heap && w.heap[a].con != con)
  {
    WithoutKeepsRest(w.heap, w.armed, con);
  }

  // ---- Facts for the loop's own steps ----

  lemma {:induction false} ErasedAbsent(h: Heap, s: seq<Address>, a: Address)
    requires Sorted(h, s) && a in h && a !in s
    ensures Erased(h, s, a) == s
  {
    if s != [] {
      SortedTail(h, s);
      if Less(h, s[0], a) {
        ErasedAbsent(h, s[1..], a);
      }
    }
  }

  /** The set without the timer that is about to start is sorted whatever
      deadline that timer gets. */
  lemma {:induction false} RestIsSorted(w: World, con: nat, id: int32, ms: int32, now: Time, hint: Address)
    requires Sound(w) && con in w.connections
    ensures Sorted(AfterStart(w, con, id, ms, now, hint).heap, Rest(w, Target(w, con, id, hint)))
  {
    SortedElsewhere(w.heap, AfterStart(w, con, id, ms, now, hint).heap, Rest(w, Target(w, con, id, hint)));
  }

  lemma {:induction false} SomeMember(s: seq<Address>)
    ensures s == [] || exists a :: a in s
  {
    assert s == [] || s[0] in s;
  }

  /** A sorted sequence is determined by its members. */
  lemma {:induction false} SortedIsUnique(h: Heap, s: seq<Address>, t: seq<Address>)
    requires Sorted(h, s) && Sorted(h, t) && forall a :: a in s <==> a in t
    ensures s == t
  {
    if s == [] || t == [] {
      assert (if s == [] then t else s) == [] by {
        SomeMember(if s == [] then t else s);
      }
    } else {
      assert s[0] in s && t[0] in t;
      SortedTail(h, s);
      SortedTail(h, t);
      forall a ensures a in s[1..] <==> a in t[1..] {
        assert a in s[1..] ==> a in s && a != s[0];
        assert a in t[1..] ==> a in t && a != t[0];
      }
      SortedIsUnique(h, s[1..], t[1..]);
    }
  }

  predicate Kept(w: World, con: nat, todo: set<int32>, a: Address) {
    a in w.heap && (w.heap[a].con != con || w.heap[a].id in todo)
  }

  /** Half-way through clearing: the timers of `con` in todo are still there. */
  ghost predicate Clearing(w: World, con: nat, todo: set<int32>, h: Heap, s: seq<Address>) {
    && h == (map a | a in w.heap && Kept(w, con, todo, a) :: w.heap[a])
    && Sorted(w.heap, s)
    && (forall a :: a in s <==> a in w.armed && Kept(w, con, todo, a))
  }

  lemma {:induction false} ClearingOne(w: World, con: nat, todo: set<int32>, id: int32, h: Heap, s: seq<Address>)
    requires Sound(w) && con in w.connections && todo <= w.connections[con].Keys && id in todo
    requires Clearing(w, con, todo, h, s)
    ensures var a := w.connections[con][id];
            && a in h && Sorted(h, s)
            && Clearing(w, con, todo - {id}, h - {a}, Erased(h, s, a))
  {
    var a := w.connections[con][id];
    assert Kept(w, con, todo, a);
    SortedElsewhere(w.heap, h, s);
    ErasedRemoves(h, s, a);
    SortedElsewhere(h, w.heap, Erased(h, s, a));
    forall b ensures Kept(w, con, todo - {id}, b) <==> Kept(w, con, todo, b) && b != a {
    }
  }

  /** A pass after its first i iterations have fired. */
  function Resumed(w: World, clock: nat -> Time, callback: nat -> seq<Action>, i: nat, cap: int,
                   fired: seq<Firing>): Outcome
    requires Sound(w)
  {
    var o := Pass(w, clock, callback, i, cap);
    Outcome(o.world, fired + o.fired, o.wait)
  }

  lemma {:induction false} ResumedNext(w: World, clock: nat -> Time, callback: nat -> seq<Action>, i: nat, cap: int,
                                       fired: seq<Firing>)
      returns (fired': seq<Firing>)
    requires Sound(w) && i < cap && w.armed != [] && w.armed[0] in w.heap
    requires DiffMs(w.heap[w.armed[0]].deadline, clock(i)) <= 0
    ensures Sound(AfterPop(w)) && fired' == fired + [Firing(w, clock(i))]
    ensures Resumed(Script(AfterPop(w), callback(i)), clock, callback, i + 1, cap, fired')
            == Resumed(w, clock, callback, i, cap, fired)
  {
    PopKeepsSound(w);
    var _, rest := PassStep(w, clock, callback, i, cap, Pass(w, clock, callback, i, cap));
    fired' := fired + [Firing(w, clock(i))];
    assert fired + ([Firing(w, clock(i))] + rest.fired) == fired' + rest.fired;
  }

  // ---- What callbacks do ----

  lemma {:induction false} ScriptSnoc(w: World, acts: seq<Action>, act: Action)
    requires Sound(w)
    ensures Script(w, acts + [act]) == Apply(Script(w, acts), act)
    decreases |acts|
  {
    if acts == [] {
      assert [] + [act] == [act] && [act][1..] == [];
      ApplyKeepsSound(w, act);
    } else {
      assert (acts + [act])[1..] == acts[1..] + [act];
      ApplyKeepsSound(w, acts[0]);
      ScriptSnoc(Apply(w, acts[0]), acts[1..], act);
    }
  }

  /** v is w without its first timer in the set, that one being stopped. */
  ghost predicate Popped(w: World, v: World) {
    && w.armed != [] && v.armed == w.armed[1..] && v.connections == w.connections && v.heap.Keys == w.heap.Keys
    && forall a :: a in w.heap ==>
         v.heap[a] == if a == w.armed[0] then w.heap[a].(status := Stopped) else w.heap[a]
  }

  /** The worlds from the moment w loses its first timer, through each action of
      the callback, to v. */
  ghost predicate Through(w: World, acts: seq<Action>, worlds: seq<World>, v: World) {
    && |worlds| == |acts| + 1 && Popped(w, worlds[0]) && worlds[|acts|] == v
    && forall j :: 0 <= j < |acts| ==> Sound(worlds[j]) && worlds[j + 1] == Apply(worlds[j], acts[j])
  }

  ghost predicate Fired(w: World, acts: seq<Action>, v: World) {
    exists worlds :: Through(w, acts, worlds, v)
  }

  lemma {:induction false} FiredIsScript(w: World, acts: seq<Action>)
    requires Sound(w) && w.armed != []
    ensures Sound(AfterPop(w)) && Fired(w, acts, Script(AfterPop(w), acts))
    decreases |acts|
  {
    PopKeepsSound(w);
    var worlds := seq(|acts| + 1, j requires 0 <= j <= |acts| => Script(AfterPop(w), acts[..j]));
    assert acts[..0] == [] && acts[..|acts|] == acts;
    assert w.armed[0] in w.armed;
    forall j | 0 <= j < |acts| ensures Sound(worlds[j]) && worlds[j + 1] == Apply(worlds[j], acts[j]) {
      assert acts[..j + 1] == acts[..j] + [acts[j]];
      ScriptSnoc(AfterPop(w), acts[..j], acts[j]);
    }
    assert Through(w, acts, worlds, Script(AfterPop(w), acts));
  }

  /** From w to v by these firings one after the other: each is of the first
      timer, reads the clock once and goes through every action of its callback,
      and the next one begins where that ends. */
  ghost predicate Leads(w: World, fired: seq<Firing>, v: World, clock: nat -> Time, callback: nat -> seq<Action>,
                        i: nat)
    decreases |fired|
  {
    if fired == [] then v == w
    else
      && fired[0] == Firing(w, clock(i))
      && exists next: World :: Fired(w, callback(i), next) && Leads(next, fired[1..], v, clock, callback, i + 1)
  }

  /** That is how a pass comes from its world to the next. */
  lemma {:induction false} PassLeads(w: World, clock: nat -> Time, callback: nat -> seq<Action>, i: nat, cap: int,
                                     o: Outcome)
    requires Sound(w) && o == Pass(w, clock, callback, i, cap)
    ensures Leads(w, o.fired, o.world, clock, callback, i)
    decreases cap - i
  {
    assert w.armed != [] ==> w.armed[0] in w.armed;
    if i < cap && w.armed != [] && DiffMs(w.heap[w.armed[0]].deadline, clock(i)) <= 0 {
      var next, rest := PassStep(w, clock, callback, i, cap, o);
      PassLeads(next, clock, callback, i + 1, cap, rest);
      FiredIsScript(w, callback(i));
      assert o.fired[1..] == rest.fired;
      LeadsOn(w, o.fired, o.world, clock, callback, i, next);
    }
  }

  lemma {:induction false} LeadsOn(w: World, fired: seq<Firing>, v: World, clock: nat -> Time,
                                   callback: nat -> seq<Action>, i: nat, next: World)
    requires fired != [] && fired[0] == Firing(w, clock(i)) && Fired(w, callback(i), next)
    requires Leads(next, fired[1..], v, clock, callback, i + 1)
    ensures Leads(w, fired, v, clock, callback, i)
  {
  }

  /** What an action is found to have done: a timer it started is armed with its
      deadline, one it stopped is not, and of a connection it destroyed no timer
      is left. */
  ghost predicate Shows(v: World, act: Action) {
    && (act.Create? ==> act.con in v.connections)
    && (act.StartTimer? && act.con in v.connections ==> ArmedFor(v, act.con, act.id, Deadline(act.now, act.ms)))
    && (act.StopTimer? && Has(v, act.con, act.id) ==> v.connections[act.con][act.id] !in v.armed)
    && (act.ClearTimers? || act.Destroy? ==> forall a :: a in v.heap ==> v.heap[a].con != act.con)
    && (act.Destroy? ==> act.con !in v.connections)
  }

  ghost predicate ArmedFor(v: World, con: nat, id: int32, deadline: Time) {
    && Has(v, con, id)
    && var a := v.connections[con][id];
    a in v.armed && a in v.heap && v.heap[a].deadline == deadline
  }

  /** What the last callback of a pass did last is what is found afterwards. */
  lemma {:induction false} LastActionCounts(w: World, clock: nat -> Time, callback: nat -> seq<Action>, i: nat,
                                            cap: int, o: Outcome, last: nat, acts: seq<Action>, act: Action)
    requires Sound(w) && o == Pass(w, clock, callback, i, cap) && o.fired != [] && last == i + |o.fired| - 1
    requires callback(last) == acts + [act]
    ensures Shows(o.world, act)
  {
    var v := LastFiring(w, clock, callback, i, cap, o, last);
    ScriptShows(v, callback(last), acts, act, o.world);
  }

  lemma {:induction false} LastFiring(w: World, clock: nat -> Time, callback: nat -> seq<Action>, i: nat, cap: int,
                                      o: Outcome, last: nat) returns (v: World)
    requires Sound(w) && o == Pass(w, clock, callback, i, cap) && o.fired != [] && last == i + |o.fired| - 1
    ensures Sound(v) && o.world == Script(v, callback(last))
    decreases cap - i
  {
    PassBegins(w, clock, callback, i, cap);
    var next, rest := PassStep(w, clock, callback, i, cap, o);
    if rest.fired != [] {
      v := LastFiring(next, clock, callback, i + 1, cap, rest, last);
    } else {
      NothingFired(next, clock, callback, i + 1, cap);
      PopKeepsSound(w);
      v := AfterPop(w);
    }
  }

  lemma {:induction false} ScriptShows(w: World, script: seq<Action>, acts: seq<Action>, act: Action, v: World)
    requires Sound(w) && script == acts + [act] && v == Script(w, script)
    ensures Shows(v, act)
  {
    ScriptSnoc(w, acts, act);
    ActionCounts(Script(w, acts), act);
  }

  lemma {:induction false} PassBegins(w: World, clock: nat -> Time, callback: nat -> seq<Action>, i: nat, cap: int)
    requires Sound(w) && Pass(w, clock, callback, i, cap).fired != []
    ensures i < cap && w.armed != [] && w.armed[0] in w.heap
    ensures DiffMs(w.heap[w.armed[0]].deadline, clock(i)) <= 0
  {
    assert w.armed != [] ==> w.armed[0] in w.armed;
  }

  lemma {:induction false} NothingFired(w: World, clock: nat -> Time, callback: nat -> seq<Action>, i: nat, cap: int)
    requires Sound(w) && Pass(w, clock, callback, i, cap).fired == []
    ensures Pass(w, clock, callback, i, cap).world == w
  {
  }

  lemma {:induction false} ActionCounts(w: World, act: Action)
    requires Sound(w)
    ensures Shows(Apply(w, act), act)
  {
    if act.StartTimer? && act.con in w.connections {
      StartArms(w, act.con, act.id, act.ms, act.now, act.hint);
    } else if act.StopTimer? && Has(w, act.con, act.id) {
      StopDisarms(w, act.con, act.id);
    } else if act.ClearTimers? || act.Destroy? {
      ClearTakesTimers(w, act.con);
    }
  }

  // ---- The loop itself ----

  class EventLoop {
    var heap: Heap
    var connections: map<nat, map<int32, Address>>
    var armed: seq<Address>

    ghost function Now(): World
      reads this
    {
      World(heap, connections, armed)
    }

    constructor ()
      ensures Now() == World(map[], map[], [])
    {
      heap, connections, armed := map[], map[], [];
    }

    /** std::set::lower_bound: the first timer that does not come before tm. */
    method LowerBound(tm: Address) returns (i: nat)
      requires tm in heap && forall a :: a in armed ==> a in heap
      ensures i <= |armed| && (i < |armed| ==> !Less(heap, armed[i], tm))
      ensures Inserted(heap, armed, tm) == armed[..i] + Inserted(heap, armed[i..], tm)
      ensures Erased(heap, armed, tm) == armed[..i] + Erased(heap, armed[i..], tm)
    {
      i := 0;
      while i < |armed| && Less(heap, armed[i], tm)
        invariant i <= |armed|
        invariant Inserted(heap, armed, tm) == armed[..i] + Inserted(heap, armed[i..], tm)
        invariant Erased(heap, armed, tm) == armed[..i] + Erased(heap, armed[i..], tm)
      {
        PastOne(heap, armed, i, tm);
        i := i + 1;
      }
    }

    /** std::set::insert. */
    method AddTimer(tm: Address)
      requires tm in heap && forall a :: a in armed ==> a in heap
      modifies this`armed
      ensures armed == Inserted(heap, old(armed), tm)
    {
      var i := LowerBound(tm);
      InsertedAt(heap, armed, i, tm);
      if i == |armed| || Less(heap, tm, armed[i]) {
        armed := armed[..i] + [tm] + armed[i..];
      }
    }

    /** std::set::erase by key. */
    method DelTimer(tm: Address)
      requires tm in heap && forall a :: a in armed ==> a in heap
      modifies this`armed
      ensures armed == Erased(heap, old(armed), tm)
    {
      var i := LowerBound(tm);
      ErasedAt(heap, armed, i, tm);
      if i < |armed| && !Less(heap, tm, armed[i]) {
        armed := armed[..i] + armed[i + 1..];
      }
    }

    /** setTimeOutAfter, field by field. */
    static method SetTimeOutAfter(now: Time, ms: int32) returns (t: Time)
      ensures t == Deadline(now, ms)
    {
      var sec, usec := now.sec, now.usec;
      sec := sec + Quotient(ms, 1000);
      usec := usec + Remainder(ms, 1000) * 1000;
      sec := sec + Quotient(usec, MILLION);
      usec := Remainder(usec, MILLION);
      t := Time(sec, usec);
    }

    /** Finds or creates the timer, and takes it out of the set if it runs. */
    method ClaimTimer(con: nat, id: int32, hint: Address) returns (tm: Address)
      requires Sound(Now()) && con in connections
      modifies this
      ensures tm == Target(old(Now()), con, id, hint)
      ensures tm in heap && heap[tm].con == con && heap[tm].id == id
      ensures heap == old(heap)[tm := heap[tm]]
      ensures armed == Rest(old(Now()), tm)
      ensures con in old(connections)
      ensures var mine: map<int32, Address> := old(connections)[con][id := tm];
              connections == old(connections)[con := mine]
    {
      if id in connections[con] {
        tm := connections[con][id];
        if heap[tm].status.Started? {
          DelTimer(tm);
        } else {
          ErasedAbsent(heap, armed, tm);
        }
        assert connections[con][id := tm] == connections[con];
        assert connections[con := connections[con]] == connections;
      } else {
        tm := Fresh(heap.Keys, hint);
        heap := heap[tm := Timer(con, id, Time(0, 0), Init)];
        var mine: map<int32, Address> := connections[con][id := tm];
        connections := connections[con := mine];
      }
    }

    method StartTimer(con: nat, id: int32, ms: int32, now: Time, hint: Address) returns (ret: int)
      requires Sound(Now())
      modifies this
      ensures Now() == AfterStart(old(Now()), con, id, ms, now, hint)
      ensures ret == if con in old(connections) then 0 else -1
    {
      if con !in connections {
        return -1;
      }
      var tm := ClaimTimer(con, id, hint);
      var t := SetTimeOutAfter(now, ms);
      RestIsSorted(old(Now()), con, id, ms, now, hint);
      heap := heap[tm := heap[tm].(deadline := t)];
      heap := heap[tm := heap[tm].(status := Started)];
      assert heap == AfterStart(old(Now()), con, id, ms, now, hint).heap;
      AddTimer(tm);
      ret := 0;
    }

    method StopTimer(con: nat, id: int32) returns (ret: int)
      requires Sound(Now())
      modifies this
      ensures Now() == AfterStop(old(Now()), con, id)
      ensures ret == if con in connections then 0 else -1
    {
      if con !in connections {
        return -1;
      }
      if id in connections[con] {
        var tm := connections[con][id];
        if heap[tm].status.Started? {
          DelTimer(tm);
        } else {
          ErasedAbsent(heap, armed, tm);
        }
        heap := heap[tm := heap[tm].(status := Stopped)];
      }
      ret := 0;
    }

    /** Deletes the timers of a connection, whatever their status, one by one. */
    method ClearTimer(con: nat)
      requires Sound(Now())
      modifies this
      ensures Now() == AfterClear(old(Now()), con)
    {
      if con in connections {
        var mine: map<int32, Address> := connections[con];
        var todo := mine.Keys;
        while todo != {}
          invariant todo <= mine.Keys && connections == old(connections)
          invariant Clearing(old(Now()), con, todo, heap, armed)
          decreases |todo|
        {
          var id :| id in todo;
          ClearingOne(old(Now()), con, todo, id, heap, armed);
          DelTimer(mine[id]);
          heap := heap - {mine[id]};
          todo := todo - {id};
        }
        WithoutKeepsRest(old(heap), old(armed), con);
        SortedIsUnique(old(heap), armed, Without(old(heap), old(armed), con));
        connections := connections[con := map[]];
      }
    }

    method Perform(act: Action)
      requires Sound(Now())
      modifies this
      ensures Now() == Apply(old(Now()), act)
    {
      match act
      case Create(con) =>
        if con !in connections {
          connections := connections[con := map[]];
        }
      case StartTimer(con, id, ms, now, hint) =>
        var _ := StartTimer(con, id, ms, now, hint);
      case StopTimer(con, id) =>
        var _ := StopTimer(con, id);
      case ClearTimers(con) =>
        ClearTimer(con);
      case Destroy(con) =>
        ClearTimer(con);
        connections := connections - {con};
    }

    /** What a timer's callback does, in order. */
    method HandleTimer(acts: seq<Action>)
      requires Sound(Now())
      modifies this
      ensures Sound(Now()) && Now() == Script(old(Now()), acts)
    {
      var i := 0;
      while i < |acts|
        invariant i <= |acts| && Sound(Now())
        invariant Script(old(Now()), acts) == Script(Now(), acts[i..])
      {
        ApplyKeepsSound(Now(), acts[i]);
        assert acts[i..][1..] == acts[i + 1..];
        Perform(acts[i]);
        i := i + 1;
      }
    }

    /** Out of the set first, then timeout(): status and callback. */
    method Fire(acts: seq<Action>)
      requires Sound(Now()) && armed != []
      modifies this
      ensures Sound(Now()) && Now() == Script(AfterPop(old(Now())), acts)
    {
      var tm := armed[0];
      assert tm in armed;
      PopKeepsSound(Now());
      armed := armed[1..];
      heap := heap[tm := heap[tm].(status := Stopped)];
      HandleTimer(acts);
    }

    /** Fires due timers from the first one on, at most cap of them; callback i
        may start, stop and destroy anything. */
    method ProcessTimers(clock: nat -> Time, callback: nat -> seq<Action>, cap: int)
        returns (ret: int, ghost fired: seq<Firing>)
      requires Sound(Now())
      modifies this
      ensures Pass(old(Now()), clock, callback, 0, cap) == Outcome(Now(), fired, ret)
    {
      ghost var end := Pass(Now(), clock, callback, 0, cap);
      var i: nat := 0;
      ret, fired := 0, [];
      while armed != [] && i < cap
        invariant Sound(Now()) && ret == 0
        invariant Resumed(Now(), clock, callback, i, cap, fired) == end
        decreases cap - i
      {
        var tm := armed[0];
        assert tm in armed;
        var dif := DiffMs(heap[tm].deadline, clock(i));
        if dif > 0 {
          assert fired + [] == fired;
          return dif, fired;
        }
        ghost var was := Now();
        Fire(callback(i));
        fired := ResumedNext(was, clock, callback, i, cap, fired);
        i := i + 1;
      }
      assert fired + [] == fired;
    }
  }
}

/** The server's byte queue, efnfw/base/ef_loop_buf.cpp: a chain of frames that
    is written at its write frame, read at its head, and rewired while it is
    read, because drained frames move to the tail. */
module LoopBuf {
  import opened Bytes

  // ---- sequences of byte sequences ----

  function Flat(ds: seq<seq<byte>>): seq<byte> {
    if ds == [] then [] else ds[0] + Flat(ds[1..])
  }

  lemma {:induction false} FlatAppend(a: seq<seq<byte>>, b: seq<seq<byte>>)
    ensures Flat(a + b) == Flat(a) + Flat(b)
  {
    if a == [] {
      assert a + b == b;
    } else {
      FlatAppend(a[1..], b);
      assert (a + b)[1..] == a[1..] + b;
      assert a[0] + (Flat(a[1..]) + Flat(b)) == Flat(a) + Flat(b);
    }
  }

  lemma {:induction false} FlatOfEmpties(ds: seq<seq<byte>>)
    requires forall i :: 0 <= i < |ds| ==> ds[i] == []
    ensures Flat(ds) == []
  {
    if ds != [] {
      FlatOfEmpties(ds[1..]);
    }
  }

  lemma {:induction false} FlatOne(d: seq<byte>)
    ensures Flat([d]) == d
  {
    assert Flat([d]) == d + Flat([]);
  }

  /** Bytes added to the last non-empty piece go to the end. */
  lemma {:induction false} FlatGrow(ds: seq<seq<byte>>, k: nat, piece: seq<byte>)
    requires k < |ds| && forall i :: k < i < |ds| ==> ds[i] == []
    ensures Flat(ds[k := ds[k] + piece]) == Flat(ds) + piece
  {
    var a, b, ds' := ds[..k], ds[k + 1..], ds[k := ds[k] + piece];
    FlatOfEmpties(b);
    FlatSplitAt(ds, k);
    FlatSplitAt(ds', k);
    assert ds'[..k] == a && ds'[k + 1..] == b;
    assert Flat(a) + (ds[k] + piece) == Flat(a) + ds[k] + piece;
  }

  lemma {:induction false} FlatSplitAt(ds: seq<seq<byte>>, k: nat)
    requires k < |ds|
    ensures Flat(ds) == Flat(ds[..k]) + ds[k] + Flat(ds[k + 1..])
    ensures Flat(ds[..k + 1]) == Flat(ds[..k]) + ds[k]
  {
    var a, b := ds[..k], ds[k + 1..];
    FlatOne(ds[k]);
    FlatAppend(a, [ds[k]]);
    FlatAppend(a + [ds[k]], b);
    assert ds == a + [ds[k]] + b && ds[..k + 1] == a + [ds[k]];
  }

  lemma {:induction false} PrefixGrows(c: seq<byte>, bytes: seq<byte>, i: nat, rest: seq<byte>, n: nat)
    requires i <= |bytes| && rest == bytes[i..] && n <= |rest|
    ensures c + bytes[..i] + rest[..n] == c + bytes[..i + n]
  {
    assert bytes[..i] + rest[..n] == bytes[..i + n];
    assert c + bytes[..i] + rest[..n] == c + (bytes[..i] + rest[..n]);
  }

  // ---- frames ----

  const FRAME_HEADER: nat := 32
  const ALIGN_SIZE: nat := 2048

  class Frame {
    const buf: array<byte>
    var size: nat
    var start: nat
    var next: Frame?
    ghost var data: seq<byte>

    ghost predicate Valid()
      reads this`size, this`start, this`data, buf
    {
      && 0 < buf.Length && start + size <= buf.Length && (size == 0 ==> start == 0)
      && data == buf[start..start + size]
    }

    ghost predicate Holds(d: seq<byte>)
      reads this`size, this`start, this`data, buf
    {
      Valid() && data == d
    }

    constructor (cap: nat)
      requires 0 < cap
      ensures Valid() && fresh(buf) && buf.Length == cap && data == [] && next == null
    {
      buf := new byte[cap];
      size, start, next := 0, 0, null;
      data := [];
    }

    function FreeSize(): int
      reads this`size, this`start
    {
      buf.Length - size - start
    }

    predicate Full()
      reads this`size, this`start
    {
      size + start == buf.Length
    }

    method Peek(len: nat) returns (out: seq<byte>)
      requires Valid()
      ensures out == data[..Min(len, size)]
    {
      var realread := if size <= len then size else len;
      out := buf[start..start + realread];
    }

    method Read(len: nat) returns (out: seq<byte>)
      requires Valid()
      modifies this`size, this`start, this`data
      ensures Valid()
      ensures out == old(data)[..Min(len, old(size))] && data == old(data)[Min(len, old(size))..]
    {
      out := Peek(len);
      start, size := start + |out|, size - |out|;
      data := data[|out|..];
      if size <= 0 {
        start := 0;
      }
    }

    method Write(bytes: seq<byte>) returns (realwrite: nat)
      requires Valid()
      modifies this`size, this`data, buf
      ensures Valid() && realwrite == Min(|bytes|, old(FreeSize()))
      ensures data == old(data) + bytes[..realwrite]
    {
      realwrite := if |bytes| > FreeSize() then FreeSize() else |bytes|;
      Store(buf, start + size, bytes[..realwrite]);
      size := size + realwrite;
      data := data + bytes[..realwrite];
    }

    method Clear()
      requires Valid()
      modifies this`size, this`start, this`data
      ensures Valid() && data == []
    {
      size, start, data := 0, 0, [];
    }
  }

  // ---- reading, on the contents of the frames alone ----

  /** The pieces in chain order, the number of the write frame, and how many
      bytes read still wants; the cursor is at the head. */
  datatype Reading = Reading(datas: seq<seq<byte>>, w: nat, want: nat)

  predicate EmptyAfter(ds: seq<seq<byte>>, w: nat) {
    w < |ds| && forall i :: w < i < |ds| ==> ds[i] == []
  }

  /** One round of the loop of read: take from the head and, if that drains it
      and it is not the tail, move it to the tail. */
  function Round(r: Reading): Reading
    requires EmptyAfter(r.datas, r.w)
  {
    var taken := Min(r.want, |r.datas[0]|);
    var rest := r.datas[0][taken..];
    if rest == [] && |r.datas| > 1 then
      Reading(r.datas[1..] + [[]], if r.w == 0 then |r.datas| - 1 else r.w - 1, r.want - taken)
    else Reading([rest] + r.datas[1..], r.w, r.want - taken)
  }

  /** A drained first piece goes to the end, unless it is the only one. */
  function MoveDrained(ds: seq<seq<byte>>, w: nat): (seq<seq<byte>>, nat)
    requires w < |ds|
  {
    if ds[0] == [] && |ds| > 1 then (ds[1..] + [[]], if w == 0 then |ds| - 1 else w - 1) else (ds, w)
  }

  /** A round is a take from the head, then that. */
  lemma {:induction false} RoundMoves(r: Reading, ds: seq<seq<byte>>)
    requires EmptyAfter(r.datas, r.w)
    requires ds == [r.datas[0][Min(r.want, |r.datas[0]|)..]] + r.datas[1..]
    ensures var (ds', w') := MoveDrained(ds, r.w);
            Round(r) == Reading(ds', w', r.want - Min(r.want, |r.datas[0]|))
  {
    assert ds[1..] == r.datas[1..];
  }

  lemma {:induction false} RoundTakesFront(r: Reading)
    requires EmptyAfter(r.datas, r.w)
    ensures var r', taken := Round(r), Min(r.want, |r.datas[0]|);
            && |r'.datas| == |r.datas| && EmptyAfter(r'.datas, r'.w)
            && r.datas[0][..taken] + Flat(r'.datas) == Flat(r.datas)
            && (r'.want > 0 ==> (r.w > 0 && r'.w == r.w - 1) || Flat(r'.datas) == [])
  {
    var r', taken := Round(r), Min(r.want, |r.datas[0]|);
    FlatOfRest(r.datas, taken, r'.datas);
    if r'.want > 0 && (r.w == 0 || |r.datas| == 1) {
      FlatOfEmpties(r'.datas);
    }
  }

  lemma {:induction false} FlatOfRest(ds: seq<seq<byte>>, taken: nat, ds': seq<seq<byte>>)
    requires ds != [] && taken <= |ds[0]|
    requires ds' == [ds[0][taken..]] + ds[1..] || (ds[0][taken..] == [] && ds' == ds[1..] + [[]])
    ensures ds[0][..taken] + Flat(ds') == Flat(ds)
  {
    var d, t := ds[0], ds[1..];
    assert d == d[..taken] + d[taken..];
    FlatAppend(t, [[]]);
    FlatOne([]);
    assert Flat([d[taken..]] + t) == d[taken..] + Flat(t) by {
      assert ([d[taken..]] + t)[1..] == t;
    }
    assert d[..taken] + (d[taken..] + Flat(t)) == d + Flat(t);
  }

  /** All rounds of a read that asks for no more than there is; it meets each
      frame up to the write frame at most once. */
  function Drain(r: Reading): (r': Reading)
    requires EmptyAfter(r.datas, r.w) && r.want <= |Flat(r.datas)|
    ensures EmptyAfter(r'.datas, r'.w) && |r'.datas| == |r.datas| && r'.want == 0
    ensures Flat(r'.datas) == Flat(r.datas)[r.want..]
    decreases if r.want == 0 then 0 else r.w + 1
  {
    if r.want == 0 then r
    else
      RoundTakesFront(r);
      var r1 := Round(r);
      assert Flat(r.datas)[r.want..] == Flat(r1.datas)[r1.want..];
      Drain(r1)
  }

  /** The loop of a read of n = min(len, |all|) bytes that wants len, of which
      it has `out`: one more round brings it closer and leads to the same end. */
  lemma {:induction false} RoundOfRead(r: Reading, all: seq<byte>, n: nat, out: seq<byte>, part: seq<byte>)
    requires EmptyAfter(r.datas, r.w) && out + Flat(r.datas) == all && r.want > 0
    requires n == Min(|out| + r.want, |all|) && (n < |out| + r.want ==> |r.datas| == 1)
    requires part == r.datas[0][..Min(r.want, |r.datas[0]|)]
    ensures var r', out' := Round(r), out + part;
            && EmptyAfter(r'.datas, r'.w) && out' + Flat(r'.datas) == all && |out'| <= n
            && Drain(Reading(r'.datas, r'.w, n - |out'|)) == Drain(Reading(r.datas, r.w, n - |out|))
            && (|out'| < n ==> |r.datas| > 1 && part == r.datas[0] && (part != [] || r'.w < r.w))
            && (|out'| == n < |out| + r.want ==> |r.datas| == 1)
  {
    RoundTakesFront(r);
    AppendPieces(out, part, Flat(Round(r).datas));
    if |r.datas| == 1 {
      RoundOfOneFrame(r, all, n, out, part);
    }
  }

  lemma {:induction false} AppendPieces(a: seq<byte>, b: seq<byte>, c: seq<byte>)
    ensures a + (b + c) == a + b + c && |a + b| == |a| + |b|
  {
  }

  lemma {:induction false} RoundOfOneFrame(r: Reading, all: seq<byte>, n: nat, out: seq<byte>, part: seq<byte>)
    requires |r.datas| == 1 && r.w == 0 && out + Flat(r.datas) == all && r.want > 0
    requires n == Min(|out| + r.want, |all|) && part == r.datas[0][..Min(r.want, |r.datas[0]|)]
    ensures |out + part| == n
    ensures Drain(Reading(Round(r).datas, 0, 0)) == Drain(Reading(r.datas, 0, n - |out|))
  {
    var d := r.datas[0];
    FlatOne(d);
    assert r.datas == [d];
    var r1 := Reading(r.datas, 0, |part|);
    var rest := d[|part|..];
    assert Round(r).datas == [rest] + r.datas[1..];
    assert Round(r1) == Reading([rest] + r.datas[1..], 0, 0);
    if part == [] {
      assert rest == d && [rest] + r.datas[1..] == r.datas;
    }
  }

  /** A read of more bytes than there are, in a chain of at least two frames,
      never ends: after any number of rounds it wants more bytes than there are,
      so the next round again drains the head and moves it to the tail. */
  lemma {:induction false} OverreadNeverEnds(r: Reading, rounds: nat)
    requires EmptyAfter(r.datas, r.w) && |r.datas| > 1 && r.want > |Flat(r.datas)|
    ensures var r' := Rounds(r, rounds);
            EmptyAfter(r'.datas, r'.w) && |r'.datas| > 1 && r'.want > |Flat(r'.datas)|
    decreases rounds
  {
    if rounds > 0 {
      RoundTakesFront(r);
      OverreadNeverEnds(Round(r), rounds - 1);
    }
  }

  function Rounds(r: Reading, rounds: nat): Reading
    requires EmptyAfter(r.datas, r.w)
    decreases rounds
  {
    if rounds == 0 then r else RoundTakesFront(r); Rounds(Round(r), rounds - 1)
  }

  // ---- chains ----

  function AlignSize(l: nat): nat {
    l + ALIGN_SIZE - l % ALIGN_SIZE
  }

  /** The capacity of the frame that extend(l) adds. */
  function NewCapacity(l: nat): nat {
    AlignSize(l) - FRAME_HEADER
  }

  /** The bytes out of len that autoResizeWrite can store: first what write
      takes, and if that is short what the frames behind and a new frame hold. */
  function StorableIn(len: nat, full: bool, room: int): int {
    var first := if full then 0 else Min(len, room);
    if first == len || first < 0 then len else Min(len, room + NewCapacity(len - first))
  }

  lemma {:induction false} StoredIsStorable(len: nat, full: bool, room: nat, ret: nat, cap: nat, more: nat)
    requires ret == (if full then 0 else Min(len, room)) && ret < len
    requires cap == NewCapacity(len - ret) && more == Min(len - ret, room - ret + cap)
    ensures ret + more == StorableIn(len, full, room)
  {
  }

  /** Nothing is lost exactly when the room ahead makes up for the frame header
      that alignSize forgets; the loss is less than that header. */
  lemma {:induction false} StorableIsEnough(len: nat, full: bool, room: nat)
    ensures var first := if full then 0 else Min(len, room);
            var r := len - first;
            && (StorableIn(len, full, room) == len <==>
                r == 0 || r % ALIGN_SIZE <= ALIGN_SIZE - FRAME_HEADER + (room - first))
            && len - FRAME_HEADER < StorableIn(len, full, room) <= len
  {
  }

  /** The largest message that a frame made for it holds with its header. */
  const SAFE_MESSAGE: nat := ALIGN_SIZE - FRAME_HEADER

  /** Messages up to that size are never cut off. */
  lemma {:induction false} SafeMessagesFit(len: nat, full: bool, room: nat)
    requires len <= SAFE_MESSAGE
    ensures StorableIn(len, full, room) == len
  {
    StorableIsEnough(len, full, room);
  }

  /** A pointer always fits. */
  lemma {:induction false} PointersFit(full: bool, room: nat)
    ensures StorableIn(8, full, room) == 8
  {
  }

  /** What autoResizeWrite does to the pieces: those before the write frame stay,
      the write frame takes what fits it, and if that is not enough a frame is
      added and a later one is the write frame; those left behind hold bytes. */
  ghost predicate Appended(before: seq<seq<byte>>, w: nat, free: int, grown: bool, bytes: seq<byte>,
                           after: seq<seq<byte>>, w': nat)
  {
    && w < |before| && w <= w' < |after| && free >= 0
    && |after| == |before| + (if grown then 1 else 0) && (grown ==> w' > w)
    && after[..w] == before[..w]
    && after[w] == before[w] + bytes[..Min(|bytes|, free)]
    && NoneEmpty(after, w, w') && (bytes == [] ==> after == before && w' == w)
  }

  ghost predicate NoneEmpty(ds: seq<seq<byte>>, lo: nat, hi: nat) {
    hi <= |ds| && forall i :: lo <= i < hi ==> ds[i] != []
  }

  /** The same in the middle of the loop of write: wlen bytes are stored, those
      that fit in frame k among them, and the write frame is v. */
  ghost predicate Placed(bytes: seq<byte>, wlen: nat, ds: seq<seq<byte>>, k: nat, free: int,
                         now: seq<seq<byte>>, v: nat)
  {
    && wlen <= |bytes| && k < |ds| == |now| && k <= v < |now| && free >= 0
    && now[..k] == ds[..k]
    && (if wlen == 0 then v == k && now == ds
        else now[k] == ds[k] + bytes[..Min(|bytes|, free)])
    && NoneEmpty(now, k, v)
  }

  /** A round fills frame v: frame k if it is the first, else one after it. */
  lemma {:induction false} PlacedNext(bytes: seq<byte>, wlen: nat, rest: seq<byte>, ret: nat,
                                      ds: seq<seq<byte>>, k: nat, free: int, was: seq<seq<byte>>, v: nat,
                                      now: seq<seq<byte>>, v': nat)
    requires Placed(bytes, wlen, ds, k, free, was, v) && wlen + ret <= |bytes| && ret > 0
    requires rest == bytes[wlen..] && now == was[v := was[v] + rest[..ret]]
    requires if wlen == 0 then ret == Min(|bytes|, free) else v > k
    requires v <= v' <= v + 1 && v' < |now|
    ensures Placed(bytes, wlen + ret, ds, k, free, now, v')
  {
    assert now[..k] == was[..k];
    if wlen == 0 {
      assert rest[..ret] == bytes[..ret];
    }
  }

  lemma {:induction false} PlacedIsAppended(bytes: seq<byte>, wlen: nat, ds: seq<seq<byte>>, k: nat, free: int,
                                            now: seq<seq<byte>>, v: nat)
    requires Placed(bytes, wlen, ds, k, free, now, v) && (wlen == 0 ==> bytes == [] || free == 0)
    ensures Appended(ds, k, free, false, bytes, now, v)
  {
    if wlen == 0 {
      assert bytes[..Min(|bytes|, free)] == [];
    }
  }

  /** A first write that was short, a new frame and a second write. */
  lemma {:induction false} AppendedTwice(ds: seq<seq<byte>>, k: nat, free: int, bytes: seq<byte>,
                                         once: seq<seq<byte>>, v: nat, rest: seq<byte>, now: seq<seq<byte>>, v': nat)
    requires Appended(ds, k, free, false, bytes, once, v) && v' < |now| == |ds| + 1 && v < v'
    requires now[..v + 1] == once[..v + 1] && NoneEmpty(now, v, v') && bytes != []
    ensures Appended(ds, k, free, true, bytes, now, v')
  {
    assert now[..k] == now[..v + 1][..k] == once[..v + 1][..k] == once[..k];
    forall i | k <= i < v + 1 ensures now[i] == once[i] {
      assert now[i] == now[..v + 1][i] == once[..v + 1][i];
    }
  }

  lemma {:induction false} FlatEmptied(ds: seq<seq<byte>>)
    ensures Flat(ds + [[]]) == Flat(ds)
  {
    FlatAppend(ds, [[]]);
    FlatOne([]);
  }

  // ---- frames in a row ----

  /** The first n frames and their buffers are among objs. */
  ghost predicate Owned(fs: seq<Frame>, objs: set<object>, n: nat)
    requires n <= |fs|
  {
    n == 0 || (Owned(fs, objs, n - 1) && fs[n - 1] in objs && fs[n - 1].buf in objs)
  }

  lemma {:induction false} OwnedAt(fs: seq<Frame>, objs: set<object>, n: nat, k: nat)
    requires k < n <= |fs| && Owned(fs, objs, n)
    ensures fs[k] in objs && fs[k].buf in objs
  {
    if k < n - 1 {
      OwnedAt(fs, objs, n - 1, k);
    }
  }

  lemma {:induction false} OwnedPrefix(fs: seq<Frame>, objs: set<object>, gs: seq<Frame>, more: set<object>, n: nat)
    requires n <= |fs| && n <= |gs| && Owned(fs, objs, n) && objs <= more
    requires forall i :: 0 <= i < n ==> gs[i] == fs[i]
    ensures Owned(gs, more, n)
  {
    if n > 0 {
      OwnedPrefix(fs, objs, gs, more, n - 1);
    }
  }

  lemma {:induction false} OwnedTail(fs: seq<Frame>, objs: set<object>, n: nat)
    requires 0 < n <= |fs| && Owned(fs, objs, n)
    ensures Owned(fs[1..], objs, n - 1)
  {
    if n > 1 {
      OwnedTail(fs, objs, n - 1);
    }
  }

  /** No two of the first n frames are the same or share a buffer. */
  ghost predicate Apart(fs: seq<Frame>, n: nat)
    requires n <= |fs|
  {
    n == 0 || (Apart(fs, n - 1) && Strange(fs[n - 1], fs, n - 1))
  }

  /** f is none of the first n frames and shares no buffer with them. */
  ghost predicate Strange(f: Frame, fs: seq<Frame>, n: nat)
    requires n <= |fs|
  {
    forall i :: 0 <= i < n ==> fs[i] != f && fs[i].buf != f.buf
  }

  /** Every frame but number k, among the first n, is another one than f. */
  ghost predicate Others(f: Frame, fs: seq<Frame>, n: nat, k: nat)
    requires n <= |fs|
  {
    forall i :: 0 <= i < n && i != k ==> fs[i] != f && fs[i].buf != f.buf
  }

  lemma {:induction false} ApartAt(fs: seq<Frame>, n: nat, k: nat)
    requires k < n <= |fs| && Apart(fs, n)
    ensures Others(fs[k], fs, n, k)
  {
    if k < n - 1 {
      ApartAt(fs, n - 1, k);
    }
  }

  lemma {:induction false} ApartPrefix(fs: seq<Frame>, gs: seq<Frame>, n: nat)
    requires n <= |fs| && n <= |gs| && Apart(fs, n) && forall i :: 0 <= i < n ==> gs[i] == fs[i]
    ensures Apart(gs, n)
  {
    if n > 0 {
      ApartPrefix(fs, gs, n - 1);
    }
  }

  lemma {:induction false} ApartTail(fs: seq<Frame>, n: nat)
    requires 0 < n <= |fs| && Apart(fs, n)
    ensures Apart(fs[1..], n - 1)
  {
    if n > 1 {
      ApartTail(fs, n - 1);
      assert Strange(fs[n - 1], fs, n - 1);
      assert Strange(fs[1..][n - 2], fs[1..], n - 2);
    }
  }

  lemma {:induction false} StrangeToOwned(f: Frame, fs: seq<Frame>, objs: set<object>, n: nat)
    requires n <= |fs| && Owned(fs, objs, n) && f !in objs && f.buf !in objs
    ensures Strange(f, fs, n)
  {
    forall i | 0 <= i < n ensures fs[i] != f && fs[i].buf != f.buf {
      OwnedAt(fs, objs, n, i);
    }
  }

  /** Different frames, all among objs, with head, wpos and tail at their places. */
  ghost predicate Layout(head: Frame, wpos: Frame, tail: Frame, fs: seq<Frame>, w: nat, objs: set<object>) {
    && fs != [] && Owned(fs, objs, |fs|) && Apart(fs, |fs|)
    && head == fs[0] && tail == fs[|fs| - 1] && w < |fs| && wpos == fs[w]
    && tail in objs
  }

  /** Each of the first n frames points to the next. */
  ghost predicate LinkedUp(fs: seq<Frame>, objs: set<object>, n: nat)
    requires n < |fs| && Owned(fs, objs, n)
    reads objs
  {
    n == 0 || (LinkedUp(fs, objs, n - 1) && fs[n - 1].next == fs[n])
  }

  lemma {:induction false} LinkedUpAt(fs: seq<Frame>, objs: set<object>, n: nat, k: nat)
    requires k < n < |fs| && Owned(fs, objs, n) && LinkedUp(fs, objs, n)
    ensures fs[k].next == fs[k + 1]
  {
    if k < n - 1 {
      LinkedUpAt(fs, objs, n - 1, k);
    }
  }

  lemma {:induction false} LinkedUpAll(fs: seq<Frame>, objs: set<object>, n: nat)
    requires n < |fs| && Owned(fs, objs, n) && LinkedUp(fs, objs, n)
    ensures forall i {:trigger fs[i].next} :: 0 <= i < n ==> fs[i].next == fs[i + 1]
  {
    forall i | 0 <= i < n ensures fs[i].next == fs[i + 1] {
      LinkedUpAt(fs, objs, n, i);
    }
  }

  lemma {:induction false} AllLinkedUp(fs: seq<Frame>, objs: set<object>, n: nat)
    requires n < |fs| && Owned(fs, objs, n)
    requires forall i {:trigger fs[i].next} :: 0 <= i < n ==> fs[i].next == fs[i + 1]
    ensures LinkedUp(fs, objs, n)
  {
    if n > 0 {
      AllLinkedUp(fs, objs, n - 1);
    }
  }

  /** Each of the first n frames holds its piece. */
  ghost predicate Holding(fs: seq<Frame>, objs: set<object>, ds: seq<seq<byte>>, n: nat)
    requires n <= |fs| && n <= |ds| && Owned(fs, objs, n)
    reads objs
  {
    n == 0 || (Holding(fs, objs, ds, n - 1) && fs[n - 1].Holds(ds[n - 1]))
  }

  lemma {:induction false} HoldingAt(fs: seq<Frame>, objs: set<object>, ds: seq<seq<byte>>, n: nat, k: nat)
    requires k < n <= |fs| && n <= |ds| && Owned(fs, objs, n) && Holding(fs, objs, ds, n)
    ensures fs[k].Holds(ds[k])
  {
    if k < n - 1 {
      HoldingAt(fs, objs, ds, n - 1, k);
    }
  }

  lemma {:induction false} HoldingAll(fs: seq<Frame>, objs: set<object>, ds: seq<seq<byte>>, n: nat)
    requires n <= |fs| && n <= |ds| && Owned(fs, objs, n) && Holding(fs, objs, ds, n)
    ensures forall i {:trigger fs[i].Holds(ds[i])} :: 0 <= i < n ==> fs[i].Holds(ds[i])
  {
    forall i | 0 <= i < n ensures fs[i].Holds(ds[i]) {
      HoldingAt(fs, objs, ds, n, i);
    }
  }

  lemma {:induction false} AllHolding(fs: seq<Frame>, objs: set<object>, ds: seq<seq<byte>>, n: nat)
    requires n <= |fs| && n <= |ds| && Owned(fs, objs, n)
    requires forall i {:trigger fs[i].Holds(ds[i])} :: 0 <= i < n ==> fs[i].Holds(ds[i])
    ensures Holding(fs, objs, ds, n)
  {
    if n > 0 {
      AllHolding(fs, objs, ds, n - 1);
    }
  }

  /** The room in the frames from number k on, when they are all empty. */
  ghost function CapacityFrom(fs: seq<Frame>, k: nat): nat
    decreases |fs| - k
  {
    if k >= |fs| then 0 else fs[k].buf.Length + CapacityFrom(fs, k + 1)
  }

  class LoopBuf {
    var head: Frame
    var wpos: Frame
    var tail: Frame
    var size: nat
    ghost var chain: seq<Frame>
    ghost var datas: seq<seq<byte>>
    ghost var w: nat
    ghost var repr: set<object>

    /** The frames form an acyclic list from head to tail through wpos and
        share nothing. */
    ghost predicate Linked()
      reads this`head, this`wpos, this`tail, this`chain, this`w, this`repr, repr
    {
      && this !in repr && Layout(head, wpos, tail, chain, w, repr)
      && tail.next == null && LinkedUp(chain, repr, |chain| - 1)
    }

    /** Each frame holds its piece of the contents, nothing after wpos. */
    ghost predicate Filled()
      requires Linked()
      reads this`head, this`wpos, this`tail, this`chain, this`w, this`repr, this`datas, repr
    {
      |datas| == |chain| && Holding(chain, repr, datas, |chain|) && EmptyAfter(datas, w)
    }

    ghost function Contents(): seq<byte>
      reads this`datas
    {
      Flat(datas)
    }

    ghost predicate Valid()
      reads this, repr
    {
      Linked() && Filled() && size == |Contents()|
    }

    constructor ()
      ensures Valid() && fresh(repr) && Contents() == []
      ensures |chain| == 1 && datas == [[]] && wpos.FreeSize() == RoomAhead() == NewCapacity(1024)
    {
      var f := new Frame(NewCapacity(1024));
      head, wpos, tail, size := f, f, f, 0;
      chain, datas, w, repr := [f], [[]], 0, {f, f.buf};
      new;
      FlatOne([]);
      assert Owned(chain, repr, 0) && Apart(chain, 0) && Layout(head, wpos, tail, chain, w, repr);
      assert Holding(chain, repr, datas, 0);
    }

    // ---- writing ----

    /** The room from the write frame to the end of the chain. */
    ghost function RoomAhead(): int
      requires Linked()
      reads this`head, this`wpos, this`tail, this`chain, this`w, this`repr, repr
    {
      OwnedAt(chain, repr, |chain|, w);
      wpos.FreeSize() + CapacityFrom(chain, w + 1)
    }

    /** The pointers are right again after a change. */
    lemma {:induction false} Relinked()
      requires this !in repr && Layout(head, wpos, tail, chain, w, repr) && tail.next == null
      requires forall i {:trigger chain[i].next} :: 0 <= i < |chain| - 1 ==> chain[i].next == chain[i + 1]
      ensures Linked()
    {
      AllLinkedUp(chain, repr, |chain| - 1);
    }

    /** The frames hold their pieces after a change. */
    lemma {:induction false} Refilled()
      requires Linked() && |datas| == |chain| && EmptyAfter(datas, w)
      requires forall i {:trigger chain[i].Holds(datas[i])} :: 0 <= i < |chain| ==> chain[i].Holds(datas[i])
      ensures Filled()
    {
      AllHolding(chain, repr, datas, |chain|);
    }

    /** All frames but number k hold the pieces that only differ there. */
    lemma {:induction false} OthersHold(now: seq<seq<byte>>, k: nat)
      requires Linked() && Filled() && |now| == |datas| && k < |now|
      requires forall i :: 0 <= i < |now| && i != k ==> now[i] == datas[i]
      ensures forall i {:trigger chain[i].Holds(now[i])} :: 0 <= i < |chain| && i != k ==> chain[i].Holds(now[i])
    {
      forall i | 0 <= i < |chain| && i != k ensures chain[i].Holds(now[i]) {
        HoldingAt(chain, repr, datas, |chain|, i);
      }
    }

    /** The write frame and its piece. */
    lemma {:induction false} WritePos()
      requires Linked() && Filled()
      ensures wpos in repr && wpos.buf in repr && wpos.Holds(datas[w])
      ensures wpos.FreeSize() >= 0 && RoomAhead() >= 0 && (wpos.FreeSize() == 0 <==> wpos.Full())
    {
      OwnedAt(chain, repr, |chain|, w);
      HoldingAt(chain, repr, datas, |chain|, w);
    }

    /** The head and its piece. */
    lemma {:induction false} HeadFrame()
      requires Linked() && Filled()
      ensures head in repr && head.buf in repr && head.Holds(datas[0])
      ensures |chain| > 1 ==> head.next == chain[1] && head != tail
      ensures |chain| == 1 ==> head.next == null && head == tail
    {
      OwnedAt(chain, repr, |chain|, 0);
      HoldingAt(chain, repr, datas, |chain|, 0);
      if |chain| > 1 {
        LinkedUpAt(chain, repr, |chain| - 1, 0);
        ApartAt(chain, |chain|, 0);
      }
    }

    /** One step of write into the write frame. */
    method FillFrame(bytes: seq<byte>) returns (ret: nat)
      requires Linked() && Filled()
      modifies this`datas, wpos`size, wpos`data, wpos.buf
      ensures Linked() && Filled()
      ensures ret == Min(|bytes|, old(wpos.FreeSize())) && wpos.FreeSize() == old(wpos.FreeSize()) - ret
      ensures datas == old(datas)[w := old(datas)[w] + bytes[..ret]]
      ensures Flat(datas) == Flat(old(datas)) + bytes[..ret]
    {
      WritePos();
      ApartAt(chain, |chain|, w);
      ghost var now := datas[w := datas[w] + bytes[..Min(|bytes|, wpos.FreeSize())]];
      LinkedUpAll(chain, repr, |chain| - 1);
      OthersHold(now, w);
      ret := wpos.Write(bytes);
      FlatGrow(datas, w, bytes[..ret]);
      datas := now;
      Relinked();
      Refilled();
    }

    /** From a full write frame to the next, if there is one. */
    method LeaveFullFrame()
      requires Linked() && Filled()
      modifies this`wpos, this`w
      ensures Linked() && Filled() && RoomAhead() == old(RoomAhead()) >= 0
      ensures wpos.Full() ==> w == |chain| - 1 && RoomAhead() == 0
      ensures w == if old(wpos.Full()) && old(w) < |chain| - 1 then old(w) + 1 else old(w)
    {
      WritePos();
      NextFrame(w);
      if wpos.Full() && wpos.next != null {
        NextIsEmpty();
        wpos := wpos.next;
        w := w + 1;
      }
    }

    /** Both: what one round of write does. */
    method FillAndLeave(bytes: seq<byte>) returns (ret: nat)
      requires Linked() && Filled()
      modifies this`wpos, this`w, this`datas, wpos`size, wpos`data, wpos.buf
      ensures Linked() && Filled() && ret == Min(|bytes|, old(wpos.FreeSize()))
      ensures datas == old(datas)[old(w) := old(datas)[old(w)] + bytes[..ret]]
      ensures Flat(datas) == Flat(old(datas)) + bytes[..ret]
      ensures RoomAhead() == old(RoomAhead()) - ret >= 0
      ensures wpos.Full() ==> w == |chain| - 1 && RoomAhead() == 0
      ensures old(w) <= w <= old(w) + 1 && (w == old(w) && ret < |bytes| ==> wpos.Full())
    {
      ret := FillFrame(bytes);
      LeaveFullFrame();
    }

    /** The frame after the write frame has all its room. */
    lemma {:induction false} NextIsEmpty()
      requires Linked() && Filled() && w < |chain| - 1
      ensures chain[w + 1].FreeSize() == chain[w + 1].buf.Length > 0
    {
      HoldingAt(chain, repr, datas, |chain|, w + 1);
    }

    /** Where the loop of write stands: of the bytes wlen are stored, `free` of
        them fit in frame k, the write frame at the start, and the pieces were
        ds then. */
    ghost predicate Writing(bytes: seq<byte>, wlen: nat, ds: seq<seq<byte>>, k: nat, free: int, room: int)
      reads this`head, this`wpos, this`tail, this`chain, this`w, this`repr, this`datas, repr
    {
      && Linked() && Filled()
      && wlen <= |bytes| && Flat(datas) == Flat(ds) + bytes[..wlen]
      && wlen + RoomAhead() == room && RoomAhead() >= 0
      && (OwnedAt(chain, repr, |chain|, w); wpos.Full() ==> w == |chain| - 1 && RoomAhead() == 0)
      && Placed(bytes, wlen, ds, k, free, datas, w)
      && (OwnedAt(chain, repr, |chain|, w); w == k && wlen > 0 ==> wlen == |bytes| || wpos.Full())
    }

    /** One round of the loop of write. */
    method WriteStep(bytes: seq<byte>, wlen: nat, ghost ds: seq<seq<byte>>, ghost k: nat, ghost free: int,
                     ghost room: int)
      returns (wlen': nat)
      requires Writing(bytes, wlen, ds, k, free, room) && !wpos.Full() && wlen < |bytes|
      requires wlen == 0 ==> free == wpos.FreeSize()
      modifies this`wpos, this`w, this`datas, wpos`size, wpos`data, wpos.buf
      ensures Writing(bytes, wlen', ds, k, free, room) && wlen' > wlen
    {
      WritePos();
      ghost var was, v := datas, w;
      var rest := bytes[wlen..];
      var ret := FillAndLeave(rest);
      wlen' := wlen + ret;
      StillWriting(bytes, wlen, rest, ret, ds, k, free, room, was, v);
    }

    /** The loop of write stands one round further. */
    lemma {:induction false} StillWriting(bytes: seq<byte>, wlen: nat, rest: seq<byte>, ret: nat, ds: seq<seq<byte>>,
                                          k: nat, free: int, room: int, was: seq<seq<byte>>, v: nat)
      requires Linked() && Filled() && Placed(bytes, wlen, ds, k, free, was, v)
      requires wlen < |bytes| && rest == bytes[wlen..] && 0 < ret <= |rest|
      requires Flat(was) == Flat(ds) + bytes[..wlen] && Flat(datas) == Flat(was) + rest[..ret]
      requires datas == was[v := was[v] + rest[..ret]] && v <= w <= v + 1
      requires if wlen == 0 then ret == Min(|bytes|, free) else v > k
      requires wlen + ret + RoomAhead() == room && RoomAhead() >= 0
      requires wpos.Full() ==> w == |chain| - 1 && RoomAhead() == 0
      requires w == k ==> wlen + ret == |bytes| || wpos.Full()
      ensures Writing(bytes, wlen + ret, ds, k, free, room)
    {
      PrefixGrows(Flat(ds), bytes, wlen, rest, ret);
      PlacedNext(bytes, wlen, rest, ret, ds, k, free, was, v, datas, w);
    }

    /** Appends bytes while there is room; a full write frame means no room,
        even if drained frames were moved behind it. */
    method Write(bytes: seq<byte>) returns (wlen: nat)
      requires Valid()
      modifies this, repr
      ensures Valid() && chain == old(chain) && repr == old(repr)
      ensures wlen == if old(wpos.Full()) then 0 else Min(|bytes|, old(RoomAhead()))
      ensures Contents() == old(Contents()) + bytes[..wlen]
      ensures RoomAhead() == old(RoomAhead()) - wlen
      ensures wlen < |bytes| ==> wpos.Full() && w == if old(wpos.Full()) then old(w) else |chain| - 1
      ensures Appended(old(datas), old(w), old(wpos.FreeSize()), false, bytes, datas, w)
    {
      WritePos();
      wlen := 0;
      if wpos.Full() {
        assert bytes[..0] == [];
        return;
      }
      wlen := WriteAhead(bytes);
      size := size + wlen;
    }

    /** The loop of write. */
    method WriteAhead(bytes: seq<byte>) returns (wlen: nat)
      requires Linked() && Filled() && !wpos.Full()
      modifies this`wpos, this`w, this`datas, repr
      ensures Linked() && Filled() && chain == old(chain) && repr == old(repr)
      ensures wlen == Min(|bytes|, old(RoomAhead())) && RoomAhead() == old(RoomAhead()) - wlen
      ensures Flat(datas) == Flat(old(datas)) + bytes[..wlen]
      ensures wlen < |bytes| ==> wpos.Full() && w == |chain| - 1
      ensures Appended(old(datas), old(w), old(wpos.FreeSize()), false, bytes, datas, w)
    {
      WritePos();
      ghost var ds, k, free, room := datas, w, wpos.FreeSize(), RoomAhead();
      assert Flat(ds) + bytes[..0] == Flat(ds);
      wlen := 0;
      while |bytes| > wlen && !wpos.Full()
        invariant Writing(bytes, wlen, ds, k, free, room)
        invariant wlen == 0 ==> !wpos.Full() && free == wpos.FreeSize()
        decreases |bytes| - wlen
      {
        WritePos();
        wlen := WriteStep(bytes, wlen, ds, k, free, room);
      }
      PlacedIsAppended(bytes, wlen, ds, k, free, datas, w);
    }

    // ---- growing ----

    /** Adds an empty frame at the tail; a full write frame is left at once. */
    method Extend(l: nat) returns (cap: nat)
      requires Valid()
      modifies this, repr
      ensures Valid() && Contents() == old(Contents()) && cap == NewCapacity(l)
      ensures fresh(repr - old(repr))
      ensures !wpos.Full() && datas == old(datas) + [[]]
      ensures w == if old(wpos.Full()) then old(w) + 1 else old(w)
      ensures RoomAhead() == old(RoomAhead()) + cap
    {
      var f := AllocFrame(l);
      cap := f.buf.Length;
      AddFrame(f);
    }

    /** An empty frame at the tail, and on from a full write frame. */
    method AddFrame(f: Frame)
      requires Linked() && Filled() && f !in repr && f.buf !in repr && f.Holds([]) && f.next == null
      modifies this`tail, this`chain, this`datas, this`repr, this`wpos, this`w, tail`next
      ensures Linked() && Filled() && repr == old(repr) + {f, f.buf}
      ensures !wpos.Full() && datas == old(datas) + [[]] && Flat(datas) == Flat(old(datas))
      ensures w == if old(wpos.Full()) then old(w) + 1 else old(w)
      ensures RoomAhead() == old(RoomAhead()) + f.buf.Length
    {
      WritePos();
      LinkEmpty(f);
      LeaveFullFrame();
    }

    /** Linking an empty frame adds room and no contents. */
    method LinkEmpty(f: Frame)
      requires Linked() && Filled() && f !in repr && f.buf !in repr && f.Holds([]) && f.next == null
      modifies this`tail, this`chain, this`datas, this`repr, tail`next
      ensures Linked() && Filled() && chain == old(chain) + [f] && datas == old(datas) + [[]]
      ensures repr == old(repr) + {f, f.buf} && w == old(w) && wpos == old(wpos)
      ensures Flat(datas) == Flat(old(datas)) && RoomAhead() == old(RoomAhead()) + f.buf.Length
    {
      FlatEmptied(datas);
      CapacityLinked(chain, f, w + 1);
      Link(f);
    }

    static method AllocFrame(l: nat) returns (f: Frame)
      ensures fresh(f) && fresh(f.buf) && f.buf.Length == NewCapacity(l) > 0
      ensures f.Holds([]) && f.next == null
    {
      f := new Frame(NewCapacity(l));
    }

    /** Links a new frame behind the tail. */
    method Link(f: Frame)
      requires Linked() && Filled() && f !in repr && f.buf !in repr && f.Holds([]) && f.next == null
      modifies this`tail, this`chain, this`datas, this`repr, tail`next
      ensures Linked() && Filled() && chain == old(chain) + [f] && datas == old(datas) + [[]]
      ensures repr == old(repr) + {f, f.buf} && w == old(w) && wpos == old(wpos)
    {
      var fs, n := chain + [f], |chain|;
      ghost var objs, ds := repr + {f, f.buf}, datas + [[]];
      OwnedPrefix(chain, repr, fs, objs, n);
      StrangeToOwned(f, chain, repr, n);
      ApartPrefix(chain, fs, n);
      ApartAt(chain, n, n - 1);
      LinkedUpAll(chain, repr, n - 1);
      HoldingAll(chain, repr, datas, n);
      tail.next := f;
      tail := f;
      chain, datas, repr := fs, ds, objs;
      Relinked();
      Refilled();
    }

    static lemma {:induction false} CapacityLinked(fs: seq<Frame>, f: Frame, k: nat)
      requires k <= |fs|
      ensures CapacityFrom(fs + [f], k) == CapacityFrom(fs, k) + f.buf.Length
      decreases |fs| - k
    {
      if k < |fs| {
        CapacityLinked(fs, f, k + 1);
      }
    }

    ghost function Storable(len: nat): int
      requires Valid()
      reads this, repr
    {
      OwnedAt(chain, repr, |chain|, w);
      StorableIn(len, wpos.Full(), RoomAhead())
    }

    /** Whether autoResizeWrite will need another frame. */
    ghost predicate Grows(len: nat)
      requires Valid()
      reads this, repr
    {
      OwnedAt(chain, repr, |chain|, w);
      len > if wpos.Full() then 0 else Min(len, RoomAhead())
    }

    /** Claims to have stored everything, and has if everything was storable. */
    method AutoResizeWrite(bytes: seq<byte>) returns (claimed: nat, ghost stored: nat)
      requires Valid()
      modifies this, repr
      ensures Valid() && fresh(repr - old(repr))
      ensures claimed == |bytes| && stored == old(Storable(|bytes|))
      ensures Contents() == old(Contents()) + bytes[..stored]
      ensures Appended(old(datas), old(w), old(wpos.FreeSize()), old(Grows(|bytes|)), bytes, datas, w)
    {
      WritePos();
      ghost var before, full, room := Contents(), wpos.Full(), RoomAhead();
      var ret := Write(bytes);
      stored := ret;
      if |bytes| > ret {
        ghost var once, v := datas, w;
        var rest := bytes[ret..];
        ghost var cap, more := ExtendAndWrite(rest);
        stored := ret + more;
        StoredIsStorable(|bytes|, full, room, ret, cap, more);
        PrefixGrows(before, bytes, ret, rest, more);
        AppendedTwice(old(datas), old(w), old(wpos.FreeSize()), bytes, once, v, rest, datas, w);
      }
      claimed := |bytes|;
    }

    /** The second attempt of autoResizeWrite, with a full write frame at the tail. */
    method ExtendAndWrite(rest: seq<byte>) returns (ghost cap: nat, more: nat)
      requires Valid() && wpos.Full()
      modifies this, repr
      ensures Valid() && fresh(repr - old(repr))
      ensures cap == NewCapacity(|rest|) && more == Min(|rest|, old(RoomAhead()) + cap)
      ensures Contents() == old(Contents()) + rest[..more]
      ensures w > old(w) && |datas| == |old(datas)| + 1 && datas[..old(w) + 1] == old(datas)[..old(w) + 1]
      ensures NoneEmpty(datas, old(w), w)
    {
      WritePos();
      ghost var v, was := w, datas;
      var c := Extend(|rest|);
      cap := c;
      ghost var longer, v' := datas, w;
      more := Write(rest);
      assert datas[..v'] == longer[..v'];
      assert datas[..v + 1] == datas[..v'][..v + 1] == longer[..v + 1] == was[..v + 1];
    }

    // ---- reading ----

    /** Moves a drained head to the tail. */
    method Rotate()
      requires Linked() && Filled() && datas[0] == [] && head != tail
      modifies this`head, this`tail, this`chain, this`datas, this`w, head`next, tail`next
      ensures Linked() && Filled()
      ensures chain == old(chain)[1..] + [old(chain)[0]] && datas == old(datas)[1..] + [[]]
      ensures w == if old(w) == 0 then |chain| - 1 else old(w) - 1
    {
      HeadFrame();
      ghost var n, ds := |chain|, datas[1..] + [[]];
      ghost var fs, v := RotatedChain();
      RotatedPieces(fs, ds, v);
      ApartAt(fs, n, n - 1);
      ApartAt(fs, n, n - 2);
      var f, next := head, head.next;
      head := next;
      tail.next := f;
      tail := f;
      f.next := null;
      chain, datas, w := fs, ds, v;
      Relinked();
      Refilled();
    }

    /** What the frames of the rotated chain hold and point to before that. */
    lemma {:induction false} RotatedPieces(fs: seq<Frame>, ds: seq<seq<byte>>, v: nat)
      requires Linked() && Filled() && |chain| > 1 && datas[0] == []
      requires fs == chain[1..] + [chain[0]] && ds == datas[1..] + [[]]
      requires v == if w == 0 then |chain| - 1 else w - 1
      ensures EmptyAfter(ds, v)
      ensures forall i {:trigger fs[i].next} :: 0 <= i < |fs| - 2 ==> fs[i].next == fs[i + 1]
      ensures forall i {:trigger fs[i].Holds(ds[i])} :: 0 <= i < |fs| ==> fs[i].Holds(ds[i])
    {
      forall i | 0 <= i < |fs| - 2 ensures fs[i].next == fs[i + 1] {
        LinkedUpAt(chain, repr, |chain| - 1, i + 1);
      }
      forall i | 0 <= i < |fs| ensures fs[i].Holds(ds[i]) {
        HoldingAt(chain, repr, datas, |chain|, if i == |fs| - 1 then 0 else i + 1);
      }
    }

    /** The chain with its first frame at the end, before any pointer moves. */
    ghost method RotatedChain() returns (fs: seq<Frame>, v: nat)
      requires Linked() && |chain| > 1
      ensures fs == chain[1..] + [chain[0]]
      ensures v == if w == 0 then |chain| - 1 else w - 1
      ensures Layout(chain[1], wpos, head, fs, v, repr) && |fs| == |chain|
    {
      var n := |chain|;
      fs := chain[1..] + [chain[0]];
      v := if w == 0 then n - 1 else w - 1;
      OwnedAt(chain, repr, n, 0);
      OwnedTail(chain, repr, n);
      OwnedPrefix(chain[1..], repr, fs, repr, n - 1);
      ApartTail(chain, n);
      ApartPrefix(chain[1..], fs, n - 1);
      ApartAt(chain, n, 0);
    }

    /** Takes bytes from the head frame. */
    method TakeFromHead(len: nat) returns (out: seq<byte>)
      requires Linked() && Filled()
      modifies this`datas, head`size, head`start, head`data
      ensures Linked() && Filled()
      ensures out == old(datas)[0][..Min(len, |old(datas)[0]|)]
      ensures datas == [old(datas)[0][|out|..]] + old(datas)[1..]
    {
      HeadFrame();
      ApartAt(chain, |chain|, 0);
      ghost var now := [datas[0][Min(len, |datas[0]|)..]] + datas[1..];
      LinkedUpAll(chain, repr, |chain| - 1);
      OthersHold(now, 0);
      out := head.Read(len);
      datas := now;
      Relinked();
      Refilled();
    }

    /** The loop body of read, with the cursor at the head. */
    method ReadRound(want: nat) returns (out: seq<byte>)
      requires Linked() && Filled()
      modifies this`head, this`tail, this`chain, this`datas, this`w, repr
      ensures Linked() && Filled() && repr == old(repr) && |chain| == |old(chain)|
      ensures out == old(datas)[0][..Min(want, |old(datas)[0]|)]
      ensures Reading(datas, w, want - |out|) == Round(Reading(old(datas), old(w), want))
      ensures |chain| == 1 ==> old(head.next) == null
      ensures |chain| > 1 && out == old(datas)[0] ==> head == old(head.next)
    {
      HeadFrame();
      ghost var second, r := head.next, Reading(datas, w, want);
      out := TakeFromHead(want);
      RoundMoves(r, datas);
      LeaveDrainedHead(second);
    }

    /** A drained head moves to the tail unless it is the only frame. */
    method LeaveDrainedHead(ghost second: Frame?)
      requires Linked() && Filled() && second == head.next
      modifies this`head, this`tail, this`chain, this`datas, this`w, head`next, tail`next
      ensures Linked() && Filled() && |chain| == |old(chain)|
      ensures (datas, w) == MoveDrained(old(datas), old(w))
      ensures old(datas)[0] == [] && |chain| > 1 ==> head == second
    {
      HeadFrame();
      if head.size == 0 && tail != head {
        Rotate();
      }
    }

    /** Where a read stands: out is taken off the front of all, and the rest of
        the n bytes that are there to take will come as in the whole read. */
    ghost predicate ReadingOn(all: seq<byte>, n: nat, out: seq<byte>, end: Reading)
      reads this`head, this`wpos, this`tail, this`chain, this`w, this`repr, this`datas, repr
    {
      && Linked() && Filled()
      && out + Flat(datas) == all && |out| <= n <= |all|
      && Drain(Reading(datas, w, n - |out|)) == end
    }

    /** One round of the loop of read and the step to the next frame. */
    method ReadStep(len: nat, ghost all: seq<byte>, ghost n: nat, out: seq<byte>, ghost end: Reading)
      returns (f: Frame?, out': seq<byte>)
      requires ReadingOn(all, n, out, end) && |out| < len
      requires n == Min(len, |all|) && (n < len ==> |chain| == 1)
      modifies this`head, this`tail, this`chain, this`datas, this`w, repr
      ensures ReadingOn(all, n, out', end) && repr == old(repr) && |chain| == |old(chain)|
      ensures |out'| >= |out| && (|out'| < n ==> f == head && (|out'| > |out| || w < old(w)))
      ensures |out'| < len ==> |out'| < n || f == null
    {
      HeadFrame();
      ghost var r := Reading(datas, w, len - |out|);
      f := head.next;
      var part := ReadRound(len - |out|);
      RoundOfRead(r, all, n, out, part);
      out' := out + part;
    }

    /** The loop guard of read holds at the head. */
    lemma {:induction false} HeadIsNotFree()
      requires Linked()
      ensures head != wpos.next
    {
      ApartAt(chain, |chain|, 0);
      NextFrame(w);
    }

    static lemma {:induction false} TakenFromFront(out: seq<byte>, rest: seq<byte>, all: seq<byte>)
      requires out + rest == all
      ensures out == all[..|out|] && rest == all[|out|..]
    {
    }

    /** Removes and returns the first bytes.  Asking for more than there are is
        all right only in a chain of one frame, where the read comes up short;
        in a longer chain such a read never ends (OverreadNeverEnds). */
    method Read(len: nat) returns (out: seq<byte>)
      requires Valid() && (len <= size || head == tail)
      modifies this, repr
      ensures Valid() && repr == old(repr)
      ensures out == old(Contents())[..Min(len, old(size))]
      ensures Contents() == old(Contents())[Min(len, old(size))..]
      ensures Reading(datas, w, 0) == Drain(Reading(old(datas), old(w), Min(len, old(size))))
    {
      ghost var all, n := Contents(), Min(len, size);
      ghost var end := Drain(Reading(datas, w, n));
      if head == tail {
        OneFrame();
      }
      out := ReadLoop(len, all, n, end);
      TakenFromFront(out, Flat(datas), all);
      size := size - |out|;
    }

    lemma {:induction false} OneFrame()
      requires Linked() && head == tail
      ensures |chain| == 1
    {
      ApartAt(chain, |chain|, 0);
    }

    static lemma {:induction false} DrainDone(r: Reading)
      requires EmptyAfter(r.datas, r.w) && r.want == 0
      ensures Drain(r) == r
    {
    }

    method ReadLoop(len: nat, ghost all: seq<byte>, ghost n: nat, ghost end: Reading) returns (out: seq<byte>)
      requires Linked() && Filled() && Flat(datas) == all && n <= |all| && Drain(Reading(datas, w, n)) == end
      requires n == Min(len, |all|) && (n < len ==> |chain| == 1)
      modifies this`head, this`tail, this`chain, this`datas, this`w, repr
      ensures Linked() && Filled() && out + Flat(datas) == all && |out| == n && repr == old(repr)
      ensures Reading(datas, w, 0) == end
    {
      out := [];
      assert [] + all == all;
      var f: Frame? := head;
      while len > |out| && f != null && f != wpos.next
        invariant ReadingOn(all, n, out, end) && repr == old(repr)
        invariant n < len ==> |chain| == 1
        invariant |out| < n ==> f == head
        decreases f != null, n - |out|, w
      {
        f, out := ReadStep(len, all, n, out, end);
      }
      HeadIsNotFree();
      DrainDone(Reading(datas, w, 0));
    }

    // ---- looking ----

    /** The frame number i, or null past the end, as a walk along next meets it. */
    ghost function FrameAt(i: nat): Frame?
      requires i <= |chain|
      reads this`chain
    {
      if i < |chain| then chain[i] else null
    }

    lemma {:induction false} NextFrame(i: nat)
      requires Linked() && i < |chain|
      ensures chain[i].next == FrameAt(i + 1)
    {
      if i < |chain| - 1 {
        LinkedUpAt(chain, repr, |chain| - 1, i);
      }
    }

    lemma {:induction false} FreeFrameIsAfterWritePos(i: nat)
      requires Linked() && i <= |chain| && FrameAt(i) == wpos.next
      ensures i == w + 1
    {
      NextFrame(w);
      if i < |chain| {
        ApartAt(chain, |chain|, i);
      }
    }

    /** The first bytes, at most len. */
    method Peek(len: nat) returns (out: seq<byte>)
      requires Valid()
      ensures out == Contents()[..Min(len, size)]
    {
      var f: Frame? := head;
      ghost var i := 0;
      out := [];
      NextFrame(w);
      while len > |out| && f != null && f != wpos.next
        invariant i <= w + 1 && f == FrameAt(i)
        invariant |out| <= len && out <= Flat(datas) && (|out| < len ==> out == Flat(datas[..i]))
        decreases |chain| - i
      {
        var part;
        f, part := PeekFrame(f, i, len - |out|);
        PeekedPiece(datas, i, part);
        out := out + part;
        i := i + 1;
      }
      if |out| < len {
        if f == wpos.next {
          FreeFrameIsAfterWritePos(i);
        }
        PeekedAll(datas, w, i);
      }
    }

    /** One frame of a peek, and the one after it. */
    method PeekFrame(f: Frame, ghost i: nat, len: nat) returns (next: Frame?, part: seq<byte>)
      requires Linked() && Filled() && i < |chain| && f == chain[i]
      ensures part == datas[i][..Min(len, |datas[i]|)] && next == FrameAt(i + 1)
    {
      NextFrame(i);
      HoldingAt(chain, repr, datas, |chain|, i);
      next := f.next;
      part := f.Peek(len);
    }

    static lemma {:induction false} PeekedPiece(ds: seq<seq<byte>>, i: nat, part: seq<byte>)
      requires i < |ds| && part <= ds[i]
      ensures Flat(ds[..i]) + part <= Flat(ds)
      ensures part == ds[i] ==> Flat(ds[..i]) + part == Flat(ds[..i + 1])
    {
      FlatSplitAt(ds, i);
    }

    static lemma {:induction false} PeekedAll(ds: seq<seq<byte>>, w: nat, i: nat)
      requires EmptyAfter(ds, w) && w < i <= |ds|
      ensures Flat(ds[..i]) == Flat(ds)
    {
      FlatOfEmpties(ds[i..]);
      FlatAppend(ds[..i], ds[i..]);
      assert ds[..i] + ds[i..] == ds;
    }

    /** The position of the first c, or -1. */
    method Find(c: byte) returns (ret: int)
      requires Valid()
      ensures ret == -1 ==> c !in Contents()
      ensures ret != -1 ==> 0 <= ret < size && Contents()[ret] == c && c !in Contents()[..ret]
    {
      ret := 0;
      var f: Frame? := head;
      ghost var i := 0;
      while f != null
        invariant i <= |chain| && f == FrameAt(i)
        invariant ret == |Flat(datas[..i])| && c !in Flat(datas[..i])
        decreases |chain| - i
      {
        NextFrame(i);
        HoldingAt(chain, repr, datas, |chain|, i);
        FlatSplitAt(datas, i);
        var k := FindIn(f, c);
        if k < f.size {
          ret := ret + k;
          FoundInPiece(datas, i, c, k);
          return;
        }
        ret := ret + f.size;
        f := f.next;
        i := i + 1;
      }
      assert datas[..i] == datas;
      ret := -1;
    }

    /** The inner loop of find. */
    static method FindIn(f: Frame, c: byte) returns (k: nat)
      requires f.Valid()
      ensures k <= f.size && c !in f.data[..k] && (k < f.size ==> f.data[k] == c)
    {
      k := 0;
      while k < f.size
        invariant k <= f.size && c !in f.data[..k]
      {
        if c == f.buf[f.start + k] {
          return;
        }
        assert f.data[..k + 1] == f.data[..k] + [f.data[k]];
        k := k + 1;
      }
    }

    static lemma {:induction false} FoundInPiece(ds: seq<seq<byte>>, i: nat, c: byte, k: nat)
      requires i < |ds| && k < |ds[i]| && ds[i][k] == c && c !in ds[i][..k] && c !in Flat(ds[..i])
      ensures var at, all := |Flat(ds[..i])| + k, Flat(ds);
              at < |all| && all[at] == c && c !in all[..at]
    {
      var a := Flat(ds[..i]);
      FlatSplitAt(ds, i);
      assert Flat(ds)[..|a| + k] == a + ds[i][..k];
    }

    /** Empties every frame; the write frame stays where it was. */
    method Clear() returns (dropped: nat)
      requires Valid()
      modifies this`size, this`datas, repr
      ensures Valid() && dropped == old(size) && Contents() == []
      ensures |datas| == |old(datas)| && w == old(w) && forall i :: 0 <= i < |datas| ==> datas[i] == []
    {
      var f: Frame? := head;
      ghost var i, n := 0, |datas|;
      while f != null
        invariant Linked() && Filled() && i <= |chain| && f == FrameAt(i) && size == old(size)
        invariant |datas| == n && forall j :: 0 <= j < i ==> datas[j] == []
        decreases |chain| - i
      {
        OwnedAt(chain, repr, |chain|, i);
        f := ClearFrame(f, i);
        i := i + 1;
      }
      dropped := size;
      size := 0;
      FlatOfEmpties(datas);
    }

    method ClearFrame(f: Frame, ghost i: nat) returns (next: Frame?)
      requires Linked() && Filled() && i < |chain| && f == chain[i]
      modifies this`datas, f`size, f`start, f`data
      ensures Linked() && Filled() && datas == old(datas)[i := []] && next == FrameAt(i + 1)
    {
      NextFrame(i);
      next := f.next;
      ApartAt(chain, |chain|, i);
      HoldingAt(chain, repr, datas, |chain|, i);
      ghost var now := datas[i := []];
      LinkedUpAll(chain, repr, |chain| - 1);
      OthersHold(now, i);
      f.Clear();
      datas := now;
      Relinked();
      Refilled();
    }

    // ---- the first frame and the free frame ----

    /** What doSend may hand to the socket; empty frames come before the write
        frame, so this can be empty although the buffer is not. */
    method FirstFrame() returns (bytes: seq<byte>)
      requires Valid()
      ensures bytes == datas[0] && |bytes| <= size && bytes <= Contents()
    {
      HeadFrame();
      bytes := head.Peek(head.size);
    }

    method FreeFrameLen() returns (len: nat)
      requires Valid()
      ensures len == wpos.FreeSize() && (len == 0 <==> wpos.Full())
    {
      WritePos();
      len := wpos.FreeSize();
    }

    /** Bytes received straight into the free part of the write frame, followed
        by write(NULL, n). */
    method Receive(bytes: seq<byte>)
      requires Valid() && |bytes| <= wpos.FreeSize()
      modifies this`wpos, this`w, this`datas, this`size, repr
      ensures Valid() && repr == old(repr) && Contents() == old(Contents()) + bytes
    {
      WritePos();
      StoreReceived(bytes);
      size := size + |bytes|;
    }

    method StoreReceived(bytes: seq<byte>)
      requires Linked() && Filled() && |bytes| <= wpos.FreeSize()
      modifies this`wpos, this`w, this`datas, wpos`size, wpos`data, wpos.buf
      ensures Linked() && Filled() && Flat(datas) == Flat(old(datas)) + bytes
    {
      var n := FillAndLeave(bytes);
      assert bytes[..n] == bytes;
    }
  }
}

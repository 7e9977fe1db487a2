/** Which sequences of tokens the reader of clientsdk/json takes for a value, and
    which value they are: a grammar of tokens alone, and that the reader accepts
    exactly that. */
module JsonGrammar {
  import opened JsonLexer
  import opened JsonDecoder
  import opened JsonParser
  import opened JsonValue

  // ---- the grammar ----

  predicate AllComments(ts: seq<Token>) {
    forall i :: 0 <= i < |ts| ==> ts[i].kind == CommentToken
  }

  /** The value of a token that is one by itself. */
  function ScalarOf(cfg: Config, t: Token): Option<Value> {
    match t.kind
    case NumberToken => if t.text == "" then None else DecodeNumber(t.text, cfg.scan)
    case StringToken => NameOf(t)
    case TrueToken => Some(Bool(true))
    case FalseToken => Some(Bool(false))
    case NullToken => Some(Null)
    case _ => None
  }

  /** A string token that can be decoded, cut at its first NUL. */
  function NameOf(t: Token): Option<Value> {
    if |t.text| < 2 then None
    else
      match DecodeString(t.text)
      case Good(text) => Some(String(CString(text)))
      case Bad(_) => None
  }

  /** The tokens are one value: comments first, if they are allowed at all; then a
      scalar; or an opening bracket and right behind it the closing one or the
      elements; or an opening brace and the members. */
  ghost predicate IsValue(cfg: Config, ts: seq<Token>, v: Value)
    decreases |ts|, 3
  {
    && ts != []
    && if cfg.allowComments && ts[0].kind == CommentToken then IsValue(cfg, ts[1..], v)
       else IsPlainValue(cfg, ts, v)
  }

  ghost predicate IsPlainValue(cfg: Config, ts: seq<Token>, v: Value)
    requires ts != []
    decreases |ts|, 2
  {
    if ts[0].kind == ArrayBegin then
      && v.Array?
      && if |ts| > 1 && ts[1].kind == ArrayEnd then |ts| == 2 && v.elements == []
         else AreElements(cfg, ts[1..], v.elements)
    else if ts[0].kind == ObjectBegin then AreMembers(cfg, ts[1..], [], true, v)
    else |ts| == 1 && ScalarOf(cfg, ts[0]) == Some(v)
  }

  /** One or more elements and the closing bracket.  Between two elements stand any
      comments and then any other token than the closing bracket. */
  ghost predicate AreElements(cfg: Config, ts: seq<Token>, es: seq<Value>)
    decreases |ts|, 1
  {
    exists i, j :: 0 < i <= j < |ts| && ElementAndMore(cfg, ts, es, i, j)
  }

  ghost predicate ElementAndMore(cfg: Config, ts: seq<Token>, es: seq<Value>, i: nat, j: nat)
    requires 0 < i <= j < |ts|
    decreases |ts|, 0
  {
    && es != [] && IsValue(cfg, ts[..i], es[0]) && AllComments(ts[i..j]) && ts[j].kind != CommentToken
    && if ts[j].kind == ArrayEnd then j == |ts| - 1 && |es| == 1 else AreElements(cfg, ts[j + 1..], es[1..])
  }

  /** What is left of an object that has the members ms: any comments; then the
      closing brace, at the start or after an empty name; or a name, right behind
      it a colon, and a value; and behind that a closing brace, a comma, or
      comments and any token. */
  ghost predicate AreMembers(cfg: Config, ts: seq<Token>, ms: seq<Member>, start: bool, v: Value)
    decreases |ts|, 1
  {
    exists c :: 0 <= c < |ts| && AllComments(ts[..c]) && ts[c].kind != CommentToken &&
      if ts[c].kind == ObjectEnd && start then c == |ts| - 1 && v == Object(ms)
      else exists i, j, value :: c + 2 < i <= j < |ts| && MemberAndMore(cfg, ts, ms, v, c, i, j, value)
  }

  ghost predicate MemberAndMore(cfg: Config, ts: seq<Token>, ms: seq<Member>, v: Value, c: nat, i: nat, j: nat,
                                value: Value)
    requires c + 2 < i <= j < |ts|
    decreases |ts|, 0
  {
    && ts[c].kind == StringToken && NameOf(ts[c]).Some? && ts[c + 1].kind == MemberSeparator
    && IsValue(cfg, ts[c + 2..i], value)
    && ts[i].kind in {ObjectEnd, ArraySeparator, CommentToken}
    && AllComments(ts[i..j]) && ts[j].kind != CommentToken
    && var ms' := Put(ms, NameOf(ts[c]).value.s, value);
    if ts[j].kind == ObjectEnd then j == |ts| - 1 && v == Object(ms')
    else AreMembers(cfg, ts[j + 1..], ms', DecodeString(ts[c].text).text == "", v)
  }

  // ---- tokens one after the other ----

  /** The first n tokens that f cuts off a text, and what is behind them. */
  function Cut(f: string -> Lexed, s: string, n: nat): (r: seq<Token>)
    ensures |r| == n
    decreases n
  {
    if n == 0 then [] else [f(s).token] + Cut(f, f(s).rest, n - 1)
  }

  function Behind(f: string -> Lexed, s: string, n: nat): string
    decreases n
  {
    if n == 0 then s else Behind(f, f(s).rest, n - 1)
  }

  lemma {:induction false} CutAppend(f: string -> Lexed, s: string, a: nat, b: nat)
    ensures Cut(f, s, a + b) == Cut(f, s, a) + Cut(f, Behind(f, s, a), b)
    ensures Behind(f, s, a + b) == Behind(f, Behind(f, s, a), b)
    decreases a
  {
    if a > 0 {
      CutAppend(f, f(s).rest, a - 1, b);
      Grouped([f(s).token], Cut(f, f(s).rest, a - 1), Cut(f, Behind(f, s, a), b));
      assert a + b - 1 == a - 1 + b;
    }
  }

  lemma {:induction false} Grouped<T>(x: seq<T>, y: seq<T>, z: seq<T>)
    ensures x + (y + z) == x + y + z
  {
  }

  lemma {:induction false} MiddlePiece<T>(x: seq<T>, y: seq<T>, z: seq<T>)
    ensures (x + (y + z))[|x|..|x| + |y|] == y
  {
  }

  lemma {:induction false} CutPiece(f: string -> Lexed, s: string, n: nat, a: nat, b: nat)
    requires a <= b <= n
    ensures Cut(f, s, n)[a..b] == Cut(f, Behind(f, s, a), b - a)
    ensures Behind(f, s, b) == Behind(f, Behind(f, s, a), b - a)
    ensures a < n ==> Cut(f, s, n)[a] == f(Behind(f, s, a)).token
  {
    var at := Behind(f, s, a);
    CutAppend(f, s, a, n - a);
    CutAppend(f, at, b - a, n - b);
    CutAppend(f, s, a, b - a);
    assert a + (n - a) == n && b - a + (n - b) == n - a && a + (b - a) == b;
    MiddlePiece(Cut(f, s, a), Cut(f, at, b - a), Cut(f, Behind(f, at, b - a), n - b));
    if a < n {
      assert Cut(f, at, n - a)[0] == f(at).token;
    }
  }

  /** i tokens, c more, one, and m. */
  lemma {:induction false} CutFour(f: string -> Lexed, s: string, i: nat, c: nat, m: nat) returns (n: nat)
    ensures var a := Behind(f, s, i);
            var next := f(Behind(f, a, c));
            && Cut(f, s, n) == Cut(f, s, i) + Cut(f, a, c) + [next.token] + Cut(f, next.rest, m)
            && Behind(f, s, n) == Behind(f, next.rest, m)
  {
    n := i + (c + (1 + m));
    var a := Behind(f, s, i);
    var next := f(Behind(f, a, c));
    CutAppend(f, s, i, c + (1 + m));
    CutAppend(f, a, c, 1 + m);
    assert Cut(f, Behind(f, a, c), 1 + m) == [next.token] + Cut(f, next.rest, m);
    Grouped(Cut(f, a, c), [next.token], Cut(f, next.rest, m));
    Grouped(Cut(f, s, i), Cut(f, a, c) + [next.token], Cut(f, next.rest, m));
    Grouped(Cut(f, s, i), Cut(f, a, c), [next.token]);
  }

  /** c tokens, two, i more, d more, one, and m. */
  lemma {:induction false} CutSix(f: string -> Lexed, s: string, c: nat, i: nat, d: nat, m: nat) returns (n: nat)
    ensures var l := f(Behind(f, s, c));
            var colon := f(l.rest);
            var a := Behind(f, colon.rest, i);
            var next := f(Behind(f, a, d));
            && Cut(f, s, n) == Cut(f, s, c) + [l.token, colon.token] + Cut(f, colon.rest, i) + Cut(f, a, d)
                               + [next.token] + Cut(f, next.rest, m)
            && Behind(f, s, n) == Behind(f, next.rest, m)
  {
    var l := f(Behind(f, s, c));
    var colon := f(l.rest);
    var k := CutFour(f, colon.rest, i, d, m);
    n := c + (2 + k);
    CutAppend(f, s, c, 2 + k);
    assert Cut(f, l.rest, 1 + k) == [colon.token] + Cut(f, colon.rest, k);
    assert Cut(f, Behind(f, s, c), 2 + k) == [l.token] + Cut(f, l.rest, 1 + k);
    var a := Behind(f, colon.rest, i);
    var next := f(Behind(f, a, d));
    SixGrouped(Cut(f, s, c), l.token, colon.token, Cut(f, colon.rest, i), Cut(f, a, d), [next.token],
               Cut(f, next.rest, m));
  }

  lemma {:induction false} SixGrouped<T>(a: seq<T>, x: T, y: T, b: seq<T>, c: seq<T>, d: seq<T>, e: seq<T>)
    ensures a + ([x] + ([y] + (b + c + d + e))) == a + [x, y] + b + c + d + e
  {
    Grouped([x], [y], b + c + d + e);
    assert [x] + [y] == [x, y];
    Grouped(a, [x, y], b + c + d + e);
    Grouped(a + [x, y], b + c + d, e);
    Grouped(a + [x, y], b + c, d);
    Grouped(a + [x, y], b, c);
  }

  lemma {:induction false} OneMore(f: string -> Lexed, s: string, k: nat) returns (n: nat)
    ensures n == k + 1
    ensures Cut(f, s, n) == [f(s).token] + Cut(f, f(s).rest, k) && Behind(f, s, n) == Behind(f, f(s).rest, k)
  {
    n := k + 1;
  }

  lemma {:induction false} OneBehind(f: string -> Lexed, s: string, j: nat)
    ensures Behind(f, s, j + 1) == f(Behind(f, s, j)).rest
  {
    CutAppend(f, s, j, 1);
    assert Behind(f, Behind(f, s, j), 1) == Behind(f, f(Behind(f, s, j)).rest, 0);
  }

  /** The first n tokens in pieces: i, d more up to j, that one, and the rest of b. */
  lemma {:induction false} InPieces(f: string -> Lexed, s: string, n: nat, i: nat, j: nat) returns (d: nat, b: nat)
    requires i <= j < n
    ensures d == j - i && b == n - j - 1
    ensures var ts, at, next := Cut(f, s, n), Behind(f, s, i), f(Behind(f, s, j));
            && ts[..i] == Cut(f, s, i) && ts[i..j] == Cut(f, at, d) && Behind(f, at, d) == Behind(f, s, j)
            && ts[j] == next.token && ts[j + 1..] == Cut(f, next.rest, b)
            && Behind(f, s, n) == Behind(f, next.rest, b)
  {
    d, b := j - i, n - j - 1;
    var ts := Cut(f, s, n);
    CutPiece(f, s, n, 0, i);
    CutPiece(f, s, n, i, j);
    CutPiece(f, s, n, j, j);
    CutPiece(f, s, n, j + 1, n);
    OneBehind(f, s, j);
    assert ts[..i] == ts[0..i] && ts[j + 1..] == ts[j + 1..n];
  }

  /** Of a member: its name behind c tokens, the colon, and a tokens up to i. */
  lemma {:induction false} MemberPieces(f: string -> Lexed, s: string, n: nat, c: nat, i: nat) returns (a: nat)
    requires c + 2 < i < n
    ensures a == i - c - 2
    ensures var ts, l := Cut(f, s, n), f(Behind(f, s, c));
            var colon := f(l.rest);
            && ts[c] == l.token && ts[c + 1] == colon.token && ts[c + 2..i] == Cut(f, colon.rest, a)
            && Behind(f, s, i) == Behind(f, colon.rest, a) && ts[i] == f(Behind(f, s, i)).token
  {
    a := i - c - 2;
    CutPiece(f, s, n, c, c);
    CutPiece(f, s, n, c + 1, c + 1);
    CutPiece(f, s, n, c + 2, i);
    CutPiece(f, s, n, i, i);
    OneBehind(f, s, c);
    OneBehind(f, s, c + 1);
  }

  // ---- the tokens of the reader ----

  const LEXER: string -> Lexed := ReadToken

  /** The next n tokens of a text. */
  function Toks(s: string, n: nat): (r: seq<Token>)
    ensures |r| == n
  {
    Cut(LEXER, s, n)
  }

  function Past(s: string, n: nat): string {
    Behind(LEXER, s, n)
  }

  lemma {:induction false} PastIsPast(s: string, n: nat)
    ensures Past(s, n) == Dropped(s, n)
    decreases n
  {
    if n > 0 {
      PastIsPast(ReadToken(s).rest, n - 1);
    }
  }

  /** How many comments are skipped. */
  lemma {:induction false} SkipsComments(s: string) returns (c: nat)
    ensures SkipComments(s) == ReadToken(Past(s, c)) && AllComments(Toks(s, c))
    decreases |s|
  {
    var l := ReadToken(s);
    if l.token.kind == CommentToken {
      var d := SkipsComments(l.rest);
      c := d + 1;
      assert Toks(s, c) == [l.token] + Toks(l.rest, d);
    } else {
      c := 0;
    }
  }

  lemma {:induction false} SkipsExactly(s: string, c: nat)
    requires AllComments(Toks(s, c)) && ReadToken(Past(s, c)).token.kind != CommentToken
    ensures SkipComments(s) == ReadToken(Past(s, c))
    decreases c
  {
    if c > 0 {
      assert Toks(s, c)[0].kind == CommentToken;
      assert forall i :: 0 <= i < c - 1 ==> Toks(s, c)[1..][i] == Toks(s, c)[i + 1];
      SkipsExactly(ReadToken(s).rest, c - 1);
    }
  }

  lemma {:induction false} EmptyBracket(s: string)
    ensures var t := SkipSpaces(s); t != "" && t[0] == ']' <==> ReadToken(s).token.kind == ArrayEnd
  {
  }

  // ---- what is accepted is in the grammar ----

  lemma {:induction false} CommentsFirst(cfg: Config, cs: seq<Token>, ts: seq<Token>, v: Value)
    ensures
      && AllComments(cs) && (cs != [] ==> cfg.allowComments)
      && ts != [] && (cfg.allowComments ==> ts[0].kind != CommentToken) && IsPlainValue(cfg, ts, v)
      ==> IsValue(cfg, cs + ts, v)
  {
    if cs == [] {
      assert cs + ts == ts;
    } else {
      assert (cs + ts)[1..] == cs[1..] + ts && (cs + ts)[0] == cs[0];
      CommentsFirst(cfg, cs[1..], ts, v);
      assert AllComments(cs) ==> AllComments(cs[1..]) && cs[0].kind == CommentToken;
    }
  }

  lemma {:induction false} ElementThen(cfg: Config, a: seq<Token>, b: seq<Token>, t: Token, d: seq<Token>,
                                       es: seq<Value>)
    ensures
      && a != [] && es != [] && IsValue(cfg, a, es[0]) && AllComments(b) && t.kind != CommentToken
      && (if t.kind == ArrayEnd then d == [] && |es| == 1 else AreElements(cfg, d, es[1..]))
      ==> AreElements(cfg, a + b + [t] + d, es)
  {
    var ts, i, j := a + b + [t] + d, |a|, |a| + |b|;
    assert ts[..i] == a && ts[i..j] == b && ts[j] == t && ts[j + 1..] == d;
    if es != [] && 0 < i {
      assert ElementAndMore(cfg, ts, es, i, j) <==>
             && IsValue(cfg, a, es[0]) && AllComments(b) && t.kind != CommentToken
             && if t.kind == ArrayEnd then d == [] && |es| == 1 else AreElements(cfg, d, es[1..]);
    }
  }

  lemma {:induction false} MemberThen(cfg: Config, cs: seq<Token>, name: Token, colon: Token, a: seq<Token>,
                                      b: seq<Token>, t: Token, d: seq<Token>, ms: seq<Member>, start: bool,
                                      value: Value, v: Value)
    ensures
      && AllComments(cs) && name.kind == StringToken && NameOf(name).Some? && colon.kind == MemberSeparator
      && a != [] && IsValue(cfg, a, value) && AllComments(b) && t.kind != CommentToken
      && (b == [] ==> t.kind == ObjectEnd || t.kind == ArraySeparator)
      && (var ms' := Put(ms, NameOf(name).value.s, value);
          if t.kind == ObjectEnd then d == [] && v == Object(ms')
          else AreMembers(cfg, d, ms', DecodeString(name.text).text == "", v))
      ==> AreMembers(cfg, cs + [name, colon] + a + b + [t] + d, ms, start, v)
  {
    var ts := cs + [name, colon] + a + b + [t] + d;
    var c := |cs|;
    var i := c + 2 + |a|;
    var j := i + |b|;
    assert ts[..c] == cs && ts[c] == name && ts[c + 1] == colon && ts[c + 2..i] == a;
    assert ts[i..j] == b && ts[j] == t && ts[j + 1..] == d;
    assert ts[i] == if b == [] then t else b[0];
    assert a != [] && MemberAndMore(cfg, ts, ms, v, c, i, j, value) && AllComments(cs) ==>
             AreMembers(cfg, ts, ms, start, v);
  }

  lemma {:induction false} BraceThen(cfg: Config, cs: seq<Token>, t: Token, ms: seq<Member>)
    requires AllComments(cs) && t.kind == ObjectEnd
    ensures AreMembers(cfg, cs + [t], ms, true, Object(ms))
  {
    var ts, c := cs + [t], |cs|;
    assert ts[..c] == cs && ts[c] == t;
  }

  /** A value that is read without an error is one of the grammar, and the tokens
      behind it stay. */
  lemma {:induction false} AcceptedIsValue(cfg: Config, s: string, current: Value) returns (n: nat)
    requires ReadValue(cfg, s, current).ok
    ensures var r := ReadValue(cfg, s, current);
            r.rest == Past(s, n) && IsValue(cfg, Toks(s, n), r.value)
    decreases |s|, 1
  {
    var k := AcceptedBehind(cfg, s, current);
    n := ValueFrom(cfg, s, FirstToken(cfg, s), k, ReadValue(cfg, s, current).value);
  }

  lemma {:induction false} ValueFrom(cfg: Config, s: string, l: Lexed, k: nat, v: Value) returns (n: nat)
    requires l == FirstToken(cfg, s) && FollowedBy(cfg, l.token, l.rest, k, v)
    ensures IsValue(cfg, Toks(s, n), v) && Past(s, n) == Past(l.rest, k)
  {
    var c := CommentsAllowed(cfg, s);
    var at := Past(s, c);
    var m := PlainValueRead(cfg, at, l, k, v);
    CommentsFirst(cfg, Toks(s, c), Toks(at, m), v);
    n := c + m;
    CutAppend(LEXER, s, c, m);
  }

  /** The first token that counts. */
  lemma {:induction false} CommentsAllowed(cfg: Config, s: string) returns (c: nat)
    ensures FirstToken(cfg, s) == ReadToken(Past(s, c)) && AllComments(Toks(s, c))
    ensures c > 0 ==> cfg.allowComments
  {
    c := 0;
    if cfg.allowComments {
      c := SkipsComments(s);
    }
  }

  /** The tokens of a value: the first, and k more from `rest` on. */
  ghost predicate FollowedBy(cfg: Config, first: Token, rest: string, k: nat, v: Value) {
    if first.kind == ArrayBegin then
      if ReadToken(rest).token.kind == ArrayEnd then k == 1 && v == Array([])
      else v.Array? && AreElements(cfg, Toks(rest, k), v.elements)
    else if first.kind == ObjectBegin then AreMembers(cfg, Toks(rest, k), [], true, v)
    else k == 0 && ScalarOf(cfg, first) == Some(v)
  }

  lemma {:induction false} AcceptedBehind(cfg: Config, s: string, current: Value) returns (k: nat)
    requires ReadValue(cfg, s, current).ok
    ensures var l, r := FirstToken(cfg, s), ReadValue(cfg, s, current);
            FollowedBy(cfg, l.token, l.rest, k, r.value) && r.rest == Past(l.rest, k)
    decreases |s|, 0
  {
    var l := FirstToken(cfg, s);
    if l.token.kind == ObjectBegin {
      k := AcceptedAreMembers(cfg, l.rest, [], "");
    } else if l.token.kind == ArrayBegin {
      ArrayBegun(cfg, s, current);
      if ReadToken(l.rest).token.kind == ArrayEnd {
        k := 1;
      } else {
        var es;
        k, es := AcceptedAreElements(cfg, l.rest, []);
        assert [] + es == es;
      }
    } else {
      k := 0;
    }
  }

  /** The parts make a plain value. */
  lemma {:induction false} PlainValueRead(cfg: Config, at: string, l: Lexed, k: nat, v: Value) returns (m: nat)
    requires l == ReadToken(at) && FollowedBy(cfg, l.token, l.rest, k, v)
    ensures m == k + 1 && Past(at, m) == Past(l.rest, k)
    ensures IsPlainValue(cfg, Toks(at, m), v) && Toks(at, m)[0] == l.token
  {
    m := OneMore(LEXER, at, k);
    if l.token.kind == ArrayBegin && k > 0 {
      assert Toks(at, m)[1] == Toks(l.rest, k)[0] == ReadToken(l.rest).token;
    }
  }

  lemma {:induction false} AcceptedAreElements(cfg: Config, s: string, acc: seq<Value>) returns (n: nat, es: seq<Value>)
    requires ReadElements(cfg, s, acc).ok
    ensures var r := ReadElements(cfg, s, acc);
            && r.rest == Past(s, n) && r.value == Array(acc + es)
            && AreElements(cfg, Toks(s, n), es)
    decreases |s|, 2
  {
    var v := ReadValue(cfg, s, Null);
    var i := AcceptedIsValue(cfg, s, Null);
    var c := SkipsComments(v.rest);
    var next := SkipComments(v.rest);
    var m, more := 0, [];
    if next.token.kind != ArrayEnd {
      m, more := AcceptedAreElements(cfg, next.rest, acc + [v.value]);
    }
    es := [v.value] + more;
    FirstAndRest(acc, es);
    ElementThen(cfg, Toks(s, i), Toks(v.rest, c), next.token, Toks(next.rest, m), es);
    n := CutFour(LEXER, s, i, c, m);
  }

  lemma {:induction false} AcceptedAreMembers(cfg: Config, s: string, ms: seq<Member>, last: string) returns (n: nat)
    requires ReadMembers(cfg, s, ms, last).ok
    ensures var r := ReadMembers(cfg, s, ms, last);
            r.rest == Past(s, n) && AreMembers(cfg, Toks(s, n), ms, last == "", r.value)
    decreases |s|, 0
  {
    var l := SkipComments(s);
    if l.token.kind == ObjectEnd && last == "" {
      n := BraceRead(cfg, s, ms);
    } else {
      n := AcceptedMember(cfg, s, ms, last, ReadMembers(cfg, s, ms, last));
    }
  }

  lemma {:induction false} BraceRead(cfg: Config, s: string, ms: seq<Member>) returns (n: nat)
    requires SkipComments(s).token.kind == ObjectEnd
    ensures Past(s, n) == SkipComments(s).rest && AreMembers(cfg, Toks(s, n), ms, true, Object(ms))
  {
    var c := SkipsComments(s);
    BraceThen(cfg, Toks(s, c), SkipComments(s).token, ms);
    n := c + 1;
    CutAppend(LEXER, s, c, 1);
    assert Toks(Past(s, c), 1) == [SkipComments(s).token];
  }

  lemma {:induction false} AcceptedMember(cfg: Config, s: string, ms: seq<Member>, last: string, r: Outcome)
      returns (n: nat)
    requires r == ReadMembers(cfg, s, ms, last) && r.ok
    requires !(SkipComments(s).token.kind == ObjectEnd && last == "")
    ensures r.rest == Past(s, n) && AreMembers(cfg, Toks(s, n), ms, last == "", r.value)
    decreases |s|, 0, 0
  {
    var c := SkipsComments(s);
    var l := SkipComments(s);
    var name := DecodeString(l.token.text).text;
    var key, colon := CString(name), ReadToken(l.rest);
    var v := ReadValue(cfg, colon.rest, Slot(ms, key));
    var i := AcceptedIsValue(cfg, colon.rest, Slot(ms, key));
    var d := NextToken(v.rest);
    var next := ReadToken(Past(v.rest, d));
    var m: nat := 0;
    if next.token.kind != ObjectEnd {
      m := AcceptedAreMembers(cfg, next.rest, Put(ms, key, v.value), name);
    }
    MemberThen(cfg, Toks(s, c), l.token, colon.token, Toks(colon.rest, i), Toks(v.rest, d), next.token,
               Toks(next.rest, m), ms, last == "", v.value, r.value);
    n := CutSix(LEXER, s, c, i, d, m);
  }

  /** The comments behind a member, if it is comments that stand there. */
  lemma {:induction false} NextToken(s: string) returns (d: nat)
    ensures var comma := ReadToken(s);
            var next := if comma.token.kind == CommentToken then SkipComments(comma.rest) else comma;
            next == ReadToken(Past(s, d)) && AllComments(Toks(s, d)) && next.token.kind != CommentToken
    ensures d == 0 ==> ReadToken(s).token.kind != CommentToken
  {
    d := 0;
    if ReadToken(s).token.kind == CommentToken {
      d := CommentsAfter(s);
    }
  }

  lemma {:induction false} CommentsAfter(s: string) returns (d: nat)
    requires ReadToken(s).token.kind == CommentToken
    ensures d > 0 && AllComments(Toks(s, d)) && SkipComments(ReadToken(s).rest) == ReadToken(Past(s, d))
  {
    var c := SkipsComments(ReadToken(s).rest);
    d := c + 1;
    assert Toks(s, d) == [ReadToken(s).token] + Toks(ReadToken(s).rest, c);
  }

  // ---- what is in the grammar is accepted ----

  /** Tokens of the grammar are read as that value, and what is behind them stays. */
  lemma {:induction false} ValueIsAccepted(cfg: Config, s: string, current: Value, n: nat, v: Value)
    requires IsValue(cfg, Toks(s, n), v)
    ensures ReadValue(cfg, s, current) == Outcome(true, Past(s, n), v, [])
    decreases n, 3
  {
    var l, ts := ReadToken(s), Toks(s, n);
    FirstCut(s, n);
    if cfg.allowComments && l.token.kind == CommentToken {
      ValueIsAccepted(cfg, l.rest, current, n - 1, v);
      SameFirstToken(cfg, s, l.rest, current);
    } else {
      var k := PlainParts(cfg, s, n, v);
      BehindIsAccepted(cfg, s, current, l, k, v);
    }
  }

  lemma {:induction false} SameFirstToken(cfg: Config, s: string, t: string, current: Value)
    requires FirstToken(cfg, s) == FirstToken(cfg, t)
    ensures ReadValue(cfg, s, current) == ReadValue(cfg, t, current)
  {
  }

  lemma {:induction false} PlainParts(cfg: Config, s: string, n: nat, v: Value) returns (k: nat)
    requires n > 0 && IsPlainValue(cfg, Toks(s, n), v)
    ensures k < n && Past(s, n) == Past(ReadToken(s).rest, k)
    ensures FollowedBy(cfg, ReadToken(s).token, ReadToken(s).rest, k, v)
  {
    k := n - 1;
    var n' := OneMore(LEXER, s, k);
    if k > 0 {
      assert Toks(s, n)[1] == Toks(ReadToken(s).rest, k)[0] == ReadToken(ReadToken(s).rest).token;
    }
    assert Toks(s, n)[1..] == Toks(ReadToken(s).rest, k);
  }

  lemma {:induction false} BehindIsAccepted(cfg: Config, s: string, current: Value, l: Lexed, k: nat, v: Value)
    requires l == FirstToken(cfg, s) && FollowedBy(cfg, l.token, l.rest, k, v)
    ensures ReadValue(cfg, s, current) == Outcome(true, Past(l.rest, k), v, [])
    decreases k, 2
  {
    if l.token.kind == ArrayBegin {
      ArrayBegun(cfg, s, current);
      if ReadToken(l.rest).token.kind == ArrayEnd {
        assert Past(l.rest, 1) == ReadToken(l.rest).rest;
      } else {
        ElementsAreAccepted(cfg, l.rest, [], k, v.elements);
        assert [] + v.elements == v.elements;
      }
    } else if l.token.kind == ObjectBegin {
      MembersAreAccepted(cfg, l.rest, [], "", k, v, true, Toks(l.rest, k));
    } else {
      ScalarRead(cfg, s, current, v);
    }
  }

  lemma {:induction false} FirstCut(s: string, n: nat)
    requires n > 0
    ensures var l := ReadToken(s);
            && Toks(s, n)[0] == l.token && Toks(s, n)[1..] == Toks(l.rest, n - 1) && Past(s, n) == Past(l.rest, n - 1)
            && (n > 1 ==> Toks(s, n)[1] == Toks(l.rest, n - 1)[0])
  {
  }

  lemma {:induction false} ArrayBegun(cfg: Config, s: string, current: Value)
    requires FirstToken(cfg, s).token.kind == ArrayBegin
    ensures var rest := FirstToken(cfg, s).rest;
            ReadValue(cfg, s, current) ==
            if ReadToken(rest).token.kind == ArrayEnd then Outcome(true, ReadToken(rest).rest, Array([]), [])
            else ReadElements(cfg, rest, [])
  {
    EmptyBracket(FirstToken(cfg, s).rest);
  }

  lemma {:induction false} ScalarRead(cfg: Config, s: string, current: Value, v: Value)
    requires ScalarOf(cfg, FirstToken(cfg, s).token) == Some(v)
    ensures ReadValue(cfg, s, current) == Outcome(true, FirstToken(cfg, s).rest, v, [])
  {
  }

  lemma {:induction false} ElementsAreAccepted(cfg: Config, s: string, acc: seq<Value>, n: nat, es: seq<Value>)
    requires AreElements(cfg, Toks(s, n), es)
    ensures n > 0 && ReadElements(cfg, s, acc) == Outcome(true, Past(s, n), Array(acc + es), [])
    decreases n, 1
  {
    var i, j :| 0 < i <= j < n && ElementAndMore(cfg, Toks(s, n), es, i, j);
    ElementIsAccepted(cfg, s, acc, n, es, i, j);
  }

  lemma {:induction false} ElementIsAccepted(cfg: Config, s: string, acc: seq<Value>, n: nat, es: seq<Value>,
                                             i: nat, j: nat)
    requires 0 < i <= j < n && ElementAndMore(cfg, Toks(s, n), es, i, j)
    ensures ReadElements(cfg, s, acc) == Outcome(true, Past(s, n), Array(acc + es), [])
    decreases n, 0
  {
    var d, b := InPieces(LEXER, s, n, i, j);
    ValueIsAccepted(cfg, s, Null, i, es[0]);
    SkipsExactly(Past(s, i), d);
    var next := ReadToken(Past(s, j));
    ElementTaken(cfg, s, acc, Past(s, i), es[0], next);
    FirstAndRest(acc, es);
    if next.token.kind != ArrayEnd {
      ElementsAreAccepted(cfg, next.rest, acc + [es[0]], b, es[1..]);
    }
  }

  lemma {:induction false} FirstAndRest(acc: seq<Value>, es: seq<Value>)
    requires es != []
    ensures acc + [es[0]] + es[1..] == acc + es && (|es| == 1 ==> acc + [es[0]] == acc + es)
  {
  }

  lemma {:induction false} ElementTaken(cfg: Config, s: string, acc: seq<Value>, rest: string, v: Value, next: Lexed)
    requires ReadValue(cfg, s, Null) == Outcome(true, rest, v, []) && SkipComments(rest) == next
    ensures ReadElements(cfg, s, acc) ==
            if next.token.kind == ArrayEnd then Outcome(true, next.rest, Array(acc + [v]), [])
            else ReadElements(cfg, next.rest, acc + [v])
  {
  }

  lemma {:induction false} MembersAreAccepted(cfg: Config, s: string, ms: seq<Member>, last: string, n: nat, v: Value,
                                              start: bool, ts: seq<Token>)
    requires start == (last == "") && ts == Toks(s, n) && AreMembers(cfg, ts, ms, start, v)
    ensures n > 0 && ReadMembers(cfg, s, ms, last) == Outcome(true, Past(s, n), v, [])
    decreases n, 1
  {
    var c :| 0 <= c < n && AllComments(ts[..c]) && ts[c].kind != CommentToken &&
      if ts[c].kind == ObjectEnd && start then c == n - 1 && v == Object(ms)
      else exists i, j, value :: c + 2 < i <= j < n && MemberAndMore(cfg, ts, ms, v, c, i, j, value);
    CommentsPast(s, n, c);
    if !(ts[c].kind == ObjectEnd && start) {
      var i, j, value :| c + 2 < i <= j < n && MemberAndMore(cfg, ts, ms, v, c, i, j, value);
      MemberInGrammar(cfg, s, ms, last, n, v, c, i, j, value, ts);
    }
  }

  lemma {:induction false} MemberInGrammar(cfg: Config, s: string, ms: seq<Member>, last: string, n: nat, v: Value,
                                           c: nat, i: nat, j: nat, value: Value, ts: seq<Token>)
    requires ts == Toks(s, n) && SkipComments(s) == ReadToken(Past(s, c))
    requires c + 2 < i <= j < n && MemberAndMore(cfg, ts, ms, v, c, i, j, value)
    ensures ReadMembers(cfg, s, ms, last) == Outcome(true, Past(s, n), v, [])
    decreases n, 0, 1
  {
    var l, next := ReadToken(Past(s, c)), ReadToken(Past(s, j));
    var colon, rest := ReadToken(l.rest), Past(s, i);
    var ms', start, ts', a, b := MemberParts(cfg, s, ts, ms, n, v, c, i, j, value, l, colon, rest, next);
    MemberIsAccepted(cfg, s, ms, last, n, v, l, colon, a, value, rest, next, ms', start, ts', b);
  }

  lemma {:induction false} CommentsPast(s: string, n: nat, c: nat)
    requires c < n && AllComments(Toks(s, n)[..c]) && Toks(s, n)[c].kind != CommentToken
    ensures SkipComments(s) == ReadToken(Past(s, c)) && ReadToken(Past(s, c)).token == Toks(s, n)[c]
    ensures c == n - 1 ==> Past(s, n) == ReadToken(Past(s, c)).rest
  {
    var _, _ := InPieces(LEXER, s, n, c, c);
    SkipsExactly(s, c);
  }

  lemma {:induction false} MemberIsAccepted(cfg: Config, s: string, ms: seq<Member>, last: string, n: nat, v: Value,
                                            l: Lexed, colon: Lexed, i: nat, value: Value, rest: string, next: Lexed,
                                            ms': seq<Member>, start: bool, ts: seq<Token>, k: nat)
    requires i < n && k < n && SkipComments(s) == l && ReadToken(l.rest) == colon
    requires l.token.kind == StringToken && NameOf(l.token).Some? && colon.token.kind == MemberSeparator
    requires IsValue(cfg, Toks(colon.rest, i), value) && rest == Past(colon.rest, i)
    requires var comma := ReadToken(rest);
             && comma.token.kind in {ObjectEnd, ArraySeparator, CommentToken}
             && next == if comma.token.kind == CommentToken then SkipComments(comma.rest) else comma
    requires ms' == Put(ms, NameOf(l.token).value.s, value) && start == (DecodeString(l.token.text).text == "")
    requires Past(s, n) == Past(next.rest, k) && ts == Toks(next.rest, k)
    requires if next.token.kind == ObjectEnd then k == 0 && v == Object(ms') else AreMembers(cfg, ts, ms', start, v)
    ensures ReadMembers(cfg, s, ms, last) == Outcome(true, Past(s, n), v, [])
    decreases n, 0, 0
  {
    var name := DecodeString(l.token.text).text;
    ValueIsAccepted(cfg, colon.rest, Slot(ms, NameOf(l.token).value.s), i, value);
    MemberTaken(cfg, s, ms, last, l, colon, rest, value, next);
    if next.token.kind != ObjectEnd {
      MembersAreAccepted(cfg, next.rest, ms', name, k, v, start, ts);
    }
  }

  /** What the grammar says of the parts of a member. */
  lemma {:induction false} MemberParts(cfg: Config, s: string, all: seq<Token>, ms: seq<Member>, n: nat, v: Value,
                                       c: nat, i: nat, j: nat, value: Value, l: Lexed, colon: Lexed, rest: string,
                                       next: Lexed)
      returns (ms': seq<Member>, start: bool, ts: seq<Token>, a: nat, b: nat)
    requires all == Toks(s, n) && c + 2 < i <= j < n && MemberAndMore(cfg, all, ms, v, c, i, j, value)
    requires l == ReadToken(Past(s, c)) && colon == ReadToken(l.rest)
    requires rest == Past(s, i) && next == ReadToken(Past(s, j))
    ensures a < n && b < n
    ensures l.token.kind == StringToken && NameOf(l.token).Some? && colon.token.kind == MemberSeparator
    ensures rest == Past(colon.rest, a)
    ensures var known := IsValue(cfg, Toks(colon.rest, a), value); known
    ensures var comma := ReadToken(rest);
            && comma.token.kind in {ObjectEnd, ArraySeparator, CommentToken}
            && next == if comma.token.kind == CommentToken then SkipComments(comma.rest) else comma
    ensures ms' == Put(ms, NameOf(l.token).value.s, value) && start == (DecodeString(l.token.text).text == "")
    ensures Past(s, n) == Past(next.rest, b) && ts == Toks(next.rest, b)
    ensures next.token.kind == ObjectEnd ==> b == 0 && v == Object(ms')
    ensures next.token.kind != ObjectEnd ==> var known := AreMembers(cfg, ts, ms', start, v); known
  {
    var d;
    d, b := InPieces(LEXER, s, n, i, j);
    a := MemberPieces(LEXER, s, n, c, i);
    NextAfterMember(rest, d);
    ms', start := Put(ms, NameOf(l.token).value.s, value), DecodeString(l.token.text).text == "";
    ts := all[j + 1..];
  }

  lemma {:induction false} MemberTaken(cfg: Config, s: string, ms: seq<Member>, last: string, l: Lexed, colon: Lexed,
                                       rest: string, value: Value, next: Lexed)
    ensures
      && SkipComments(s) == l && l.token.kind == StringToken && NameOf(l.token).Some?
      && ReadToken(l.rest) == colon && colon.token.kind == MemberSeparator
      && ReadValue(cfg, colon.rest, Slot(ms, NameOf(l.token).value.s)) == Outcome(true, rest, value, [])
      && (var comma := ReadToken(rest);
          && comma.token.kind in {ObjectEnd, ArraySeparator, CommentToken}
          && next == if comma.token.kind == CommentToken then SkipComments(comma.rest) else comma)
      ==>
        var ms' := Put(ms, NameOf(l.token).value.s, value);
        ReadMembers(cfg, s, ms, last) ==
        if next.token.kind == ObjectEnd then Outcome(true, next.rest, Object(ms'), [])
        else ReadMembers(cfg, next.rest, ms', DecodeString(l.token.text).text)
  {
  }

  /** The token behind a member, when it is one that may stand there. */
  lemma {:induction false} NextAfterMember(s: string, d: nat)
    requires AllComments(Toks(s, d)) && ReadToken(Past(s, d)).token.kind != CommentToken
    ensures var comma := ReadToken(s);
            (if comma.token.kind == CommentToken then SkipComments(comma.rest) else comma) == ReadToken(Past(s, d))
  {
    if d > 0 {
      assert Toks(s, d)[0] == ReadToken(s).token && Toks(s, d)[1..] == Toks(ReadToken(s).rest, d - 1);
      SkipsExactly(ReadToken(s).rest, d - 1);
    }
  }

  // ---- both ----

  predicate Rooted(cfg: Config, v: Value) {
    cfg.strictRoot ==> v.Null? || v.Array? || v.Object?
  }

  /** The reader accepts a document exactly when it begins with tokens of the
      grammar, and then the root is their value; under a strict root that value
      has to be an array, an object or null as well.  What follows is not looked
      at. */
  lemma {:induction false} AcceptsExactly(cfg: Config, doc: string, root: Value)
    ensures var r := Parse(cfg, doc, root);
            r.ok <==> exists n, v :: IsValue(cfg, Toks(doc, n), v) && Rooted(cfg, v)
    ensures forall n, v :: IsValue(cfg, Toks(doc, n), v) ==> Parse(cfg, doc, root).value == v
  {
    var r := ReadValue(cfg, doc, root);
    if r.ok {
      var n := AcceptedIsValue(cfg, doc, root);
      assert IsValue(cfg, Toks(doc, n), r.value);
      assert Parse(cfg, doc, root).ok <==> Rooted(cfg, r.value);
    }
    forall n, v | IsValue(cfg, Toks(doc, n), v) ensures r.ok && r.value == v {
      ValueIsAccepted(cfg, doc, root, n, v);
    }
  }

  /** So of any text the value is at most one. */
  lemma {:induction false} ValueIsUnique(cfg: Config, s: string, n: nat, v: Value, m: nat, w: Value)
    requires IsValue(cfg, Toks(s, n), v) && IsValue(cfg, Toks(s, m), w)
    ensures v == w && Past(s, n) == Past(s, m)
  {
    ValueIsAccepted(cfg, s, Null, n, v);
    ValueIsAccepted(cfg, s, Null, m, w);
  }
}

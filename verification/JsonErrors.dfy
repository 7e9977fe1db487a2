/** Which error the reader of clientsdk/json adds when it refuses a value: one
    whose kind is true of its token, and whose token stands in the text. */
module JsonErrors {
  import opened JsonLexer
  import opened JsonDecoder
  import opened JsonParser
  import opened JsonGrammar
  import opened JsonValue

  /** What the kind of an error says of its token. */
  predicate SaysTrue(cfg: Config, e: ErrorInfo) {
    var kind := e.token.kind;
    match e.kind
    case ValueExpected => !StartsValue(kind)
    case NotANumber => kind == NumberToken && e.token.text != "" && DecodeNumber(e.token.text, cfg.scan).None?
    case MissingName => kind != StringToken
    case MissingColon => kind != MemberSeparator
    case MissingCommaOrBrace => kind != ObjectEnd && kind != ArraySeparator && kind != CommentToken
    case RootNotContainer => false
    case _ => kind == StringToken && |e.token.text| >= 2 && DecodeString(e.token.text) == Bad(e.kind)
  }

  predicate StartsValue(kind: Kind) {
    kind in {ObjectBegin, ArrayBegin, NumberToken, StringToken, TrueToken, FalseToken, NullToken}
  }

  /** t is a token of the text. */
  ghost predicate StandsIn(t: Token, s: string) {
    exists n: nat :: ReadToken(Past(s, n)).token == t
  }

  ghost predicate AllTrue(cfg: Config, s: string, es: seq<ErrorInfo>) {
    forall e :: e in es ==> SaysTrue(cfg, e) && StandsIn(e.token, s)
  }

  lemma {:induction false} StandsBehind(t: Token, s: string, k: nat)
    requires StandsIn(t, Past(s, k))
    ensures StandsIn(t, s)
  {
    var n: nat :| ReadToken(Past(Past(s, k), n)).token == t;
    CutAppend(LEXER, s, k, n);
    assert ReadToken(Past(s, k + n)).token == t;
  }

  lemma {:induction false} AllBehind(cfg: Config, s: string, k: nat, t: string, es: seq<ErrorInfo>)
    requires t == Past(s, k) && AllTrue(cfg, t, es)
    ensures AllTrue(cfg, s, es)
  {
    forall e | e in es ensures StandsIn(e.token, s) {
      StandsBehind(e.token, s, k);
    }
  }

  /** Behind one more token. */
  lemma {:induction false} PastOneMore(s: string, k: nat, l: Lexed)
    requires l == ReadToken(Past(s, k))
    ensures l.rest == Past(s, k + 1) && StandsIn(l.token, s)
  {
    OneBehind(LEXER, s, k);
  }

  /** The errors of strings are about strings. */
  lemma {:induction false} StringErrors(s: string)
    ensures var d := DecodeBody(s);
            d.Bad? ==> d.error in {EmptyEscape, BadEscape, FourDigitsExpected, HexDigitExpected,
                                   SixCharactersExpected, SecondHalfExpected}
    decreases |s|
  {
    if s != "" && s[0] != '"' {
      if s[0] != '\\' {
        StringErrors(s[1..]);
      } else if |s| > 1 && s[1] == 'u' {
        CodePointErrors(s[2..]);
        var cp := DecodeCodePoint(s[2..]);
        if cp.CodePoint? {
          StringErrors(cp.rest);
        }
      } else if |s| > 1 && SimpleEscape(s[1]).Some? {
        StringErrors(s[2..]);
      }
    }
  }

  lemma {:induction false} CodePointErrors(s: string)
    ensures var cp := DecodeCodePoint(s);
            cp.BadCodePoint? ==> cp.error in {FourDigitsExpected, HexDigitExpected, SixCharactersExpected,
                                              SecondHalfExpected}
  {
    SequenceErrors(s);
    var first := DecodeEscapeSequence(s);
    if first.CodePoint? && |first.rest| >= 6 {
      SequenceErrors(first.rest[2..]);
    }
  }

  lemma {:induction false} SequenceErrors(s: string)
    ensures var cp := DecodeEscapeSequence(s);
            cp.BadCodePoint? ==> cp.error in {FourDigitsExpected, HexDigitExpected}
  {
    if |s| >= 4 {
      DigitErrors(s, 4, 0);
    }
  }

  lemma {:induction false} DigitErrors(s: string, count: nat, value: nat)
    requires count <= |s|
    ensures var cp := HexDigits(s, count, value); cp.BadCodePoint? ==> cp.error == HexDigitExpected
    decreases count
  {
    if count > 0 && HexDigit(s[0]).Some? {
      DigitErrors(s[1..], count - 1, value * 16 + HexDigit(s[0]).value);
    }
  }

  lemma {:induction false} BadStringSaysTrue(cfg: Config, t: Token)
    requires t.kind == StringToken && |t.text| >= 2 && DecodeString(t.text).Bad?
    ensures SaysTrue(cfg, ErrorInfo(DecodeString(t.text).error, t))
  {
    StringErrors(t.text[1..|t.text| - 1]);
  }

  /** The errors of a refused value are true of tokens that stand in its text;
      there is exactly one (VerdictIsNoErrors). */
  lemma {:induction false} ErrorsSayTrue(cfg: Config, s: string, current: Value)
    ensures AllTrue(cfg, s, ReadValue(cfg, s, current).errors)
    decreases |s|, 1
  {
    var l := FirstToken(cfg, s);
    var c := CommentsAllowed(cfg, s);
    PastOneMore(s, c, l);
    if l.token.kind == ObjectBegin {
      MembersSayTrue(cfg, l.rest, [], "");
      AllBehind(cfg, s, c + 1, l.rest, ReadMembers(cfg, l.rest, [], "").errors);
    } else if l.token.kind == ArrayBegin {
      ElementsSayTrue(cfg, l.rest, []);
      AllBehind(cfg, s, c + 1, l.rest, ReadElements(cfg, l.rest, []).errors);
    } else {
      ScalarSaysTrue(cfg, s, current);
    }
  }

  lemma {:induction false} ScalarSaysTrue(cfg: Config, s: string, current: Value)
    requires FirstToken(cfg, s).token.kind !in {ObjectBegin, ArrayBegin} && StandsIn(FirstToken(cfg, s).token, s)
    ensures AllTrue(cfg, s, ReadValue(cfg, s, current).errors)
  {
    var t := FirstToken(cfg, s).token;
    if t.kind == StringToken && DecodeString(t.text).Bad? {
      BadStringSaysTrue(cfg, t);
    } else if !StartsValue(t.kind) {
      NoValueStarts(cfg, s, current);
    }
  }

  lemma {:induction false} ElementsSayTrue(cfg: Config, s: string, es: seq<Value>)
    ensures AllTrue(cfg, s, ReadElements(cfg, s, es).errors)
    decreases |s|, 2
  {
    ErrorsSayTrue(cfg, s, Null);
    var v := ReadValue(cfg, s, Null);
    if v.ok {
      var k := AcceptedIsValue(cfg, s, Null);
      var c := SkipsComments(v.rest);
      var next := SkipComments(v.rest);
      PastOneMore(v.rest, c, next);
      if next.token.kind != ArrayEnd {
        ElementsSayTrue(cfg, next.rest, es + [v.value]);
        var errors := ReadElements(cfg, next.rest, es + [v.value]).errors;
        AllBehind(cfg, v.rest, c + 1, next.rest, errors);
        AllBehind(cfg, s, k, v.rest, errors);
      }
    }
  }

  lemma {:induction false} MembersSayTrue(cfg: Config, s: string, ms: seq<Member>, last: string)
    ensures AllTrue(cfg, s, ReadMembers(cfg, s, ms, last).errors)
    decreases |s|, 0
  {
    var l := SkipComments(s);
    var c := SkipsComments(s);
    PastOneMore(s, c, l);
    if l.token.kind == StringToken {
      var colon := ReadToken(l.rest);
      PastOneMore(s, c + 1, colon);
      if DecodeString(l.token.text).Bad? {
        BadStringSaysTrue(cfg, l.token);
      } else if colon.token.kind == MemberSeparator {
        var name := DecodeString(l.token.text).text;
        MemberSaysTrue(cfg, colon.rest, ms, name);
        AllBehind(cfg, s, c + 2, colon.rest, MemberErrors(cfg, colon.rest, ms, name));
      }
    }
  }

  /** The errors from behind the colon on. */
  function MemberErrors(cfg: Config, s: string, ms: seq<Member>, name: string): seq<ErrorInfo> {
    var v := ReadValue(cfg, s, Slot(ms, CString(name)));
    if v.ok then RestErrors(cfg, v.rest, Put(ms, CString(name), v.value), name) else v.errors
  }

  /** The errors from behind a member on. */
  function RestErrors(cfg: Config, s: string, ms: seq<Member>, name: string): seq<ErrorInfo> {
    var comma := ReadToken(s);
    if comma.token.kind !in {ObjectEnd, ArraySeparator, CommentToken} then
      [ErrorInfo(MissingCommaOrBrace, comma.token)]
    else
      var next := if comma.token.kind == CommentToken then SkipComments(comma.rest) else comma;
      if next.token.kind == ObjectEnd then [] else ReadMembers(cfg, next.rest, ms, name).errors
  }

  lemma {:induction false} MemberSaysTrue(cfg: Config, s: string, ms: seq<Member>, name: string)
    ensures AllTrue(cfg, s, MemberErrors(cfg, s, ms, name))
    decreases |s|, 2
  {
    var slot := Slot(ms, CString(name));
    var v := ReadValue(cfg, s, slot);
    ErrorsSayTrue(cfg, s, slot);
    if v.ok {
      var ms' := Put(ms, CString(name), v.value);
      var k := AcceptedIsValue(cfg, s, slot);
      RestSaysTrue(cfg, v.rest, ms', name);
      AllBehind(cfg, s, k, v.rest, RestErrors(cfg, v.rest, ms', name));
    }
  }

  lemma {:induction false} RestSaysTrue(cfg: Config, s: string, ms: seq<Member>, name: string)
    ensures AllTrue(cfg, s, RestErrors(cfg, s, ms, name))
    decreases |s|, 0
  {
    var d := NextToken(s);
    var next := ReadToken(Past(s, d));
    PastOneMore(s, 0, ReadToken(s));
    PastOneMore(s, d, next);
    if ReadToken(s).token.kind in {ObjectEnd, ArraySeparator, CommentToken} && next.token.kind != ObjectEnd {
      MembersSayTrue(cfg, next.rest, ms, name);
      AllBehind(cfg, s, d + 1, next.rest, RestErrors(cfg, s, ms, name));
    }
  }

  /** A document whose first token starts no value is refused at that token for
      want of a value, whatever the root held, and that stays. */
  lemma {:induction false} NoValueStarts(cfg: Config, doc: string, root: Value)
    requires !StartsValue(FirstToken(cfg, doc).token.kind)
    ensures var r := ReadValue(cfg, doc, root);
            !r.ok && r.value == root && r.errors == [ErrorInfo(ValueExpected, FirstToken(cfg, doc).token)]
  {
  }

  /** A refused document carries the one true error of its value, or, when the
      value was read and a strict root refuses it, the one about the root. */
  lemma {:induction false} ParseErrors(cfg: Config, doc: string, root: Value)
    ensures var r := Parse(cfg, doc, root);
            !r.ok ==>
              exists e :: e in r.errors &&
                (if ReadValue(cfg, doc, root).ok then e.kind == RootNotContainer && |r.errors| == 1
                 else SaysTrue(cfg, e) && StandsIn(e.token, doc) && r.errors[0] == e)
  {
    var v, r := ReadValue(cfg, doc, root), Parse(cfg, doc, root);
    VerdictIsNoErrors(cfg, doc, root);
    ErrorsSayTrue(cfg, doc, root);
    if !r.ok {
      assert r.errors[0] in r.errors;
      if !v.ok {
        assert v.errors[0] in v.errors;
      }
    }
  }
}

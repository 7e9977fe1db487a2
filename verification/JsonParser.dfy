/** The grammatical half of clientsdk/json/json_reader.cpp as functions of the
    text still to be read: the specification of the class in JsonReader. */
module JsonParser {
  import opened JsonLexer
  import opened JsonDecoder
  import opened JsonValue

  datatype ErrorInfo = ErrorInfo(kind: ErrorKind, token: Token)

  /** Reader features and sscanf's "%lf". */
  datatype Config = Config(allowComments: bool, strictRoot: bool, scan: string -> Option<real>)

  /** What reading one value did: its verdict, the text after it, the value now
      on top of the node stack and the errors it added. */
  datatype Outcome = Outcome(ok: bool, rest: string, value: Value, errors: seq<ErrorInfo>)

  function Failed(error: ErrorKind, token: Token, rest: string, value: Value): Outcome {
    Outcome(false, rest, value, [ErrorInfo(error, token)])
  }

  function FirstToken(cfg: Config, s: string): (r: Lexed)
    ensures |r.rest| <= |s|
    ensures r.token.kind != EndOfStream ==> |r.rest| < |s| && r.token.text != ""
    ensures r.token.kind == StringToken ==> |r.token.text| >= 2
  {
    if cfg.allowComments then SkipComments(s) else ReadToken(s)
  }

  /** readValue, with `current` on top of the node stack.  A failed scalar or a
      token that starts no value leaves `current` as it was. */
  function ReadValue(cfg: Config, s: string, current: Value): (r: Outcome)
    ensures |r.rest| <= |s|
    ensures r.ok ==> |r.rest| < |s|
    decreases |s|, 1
  {
    var l := FirstToken(cfg, s);
    match l.token.kind
    case ObjectBegin => ReadMembers(cfg, l.rest, [], "")
    case ArrayBegin =>
      var t := SkipSpaces(l.rest);
      if t != "" && t[0] == ']' then Outcome(true, ReadToken(l.rest).rest, Array([]), [])
      else ReadElements(cfg, l.rest, [])
    case NumberToken => (
      match DecodeNumber(l.token.text, cfg.scan)
      case None => Failed(NotANumber, l.token, l.rest, current)
      case Some(v) => Outcome(true, l.rest, v, []))
    case StringToken => (
      match DecodeString(l.token.text)
      case Bad(e) => Failed(e, l.token, l.rest, current)
      case Good(text) => Outcome(true, l.rest, String(CString(text)), []))
    case TrueToken => Outcome(true, l.rest, Bool(true), [])
    case FalseToken => Outcome(true, l.rest, Bool(false), [])
    case NullToken => Outcome(true, l.rest, Null, [])
    case _ => Failed(ValueExpected, l.token, l.rest, current)
  }

  /** The loop of readObject, with the members read so far and the last name. */
  function ReadMembers(cfg: Config, s: string, ms: seq<Member>, last: string): (r: Outcome)
    ensures |r.rest| <= |s|
    decreases |s|, 0
  {
    var l := SkipComments(s);
    if l.token.kind == ObjectEnd && last == "" then Outcome(true, l.rest, Object(ms), [])
    else if l.token.kind != StringToken then
      Failed(MissingName, l.token, Recover(l.rest, ObjectEnd), Object(ms))
    else match DecodeString(l.token.text)
      case Bad(e) => Failed(e, l.token, Recover(l.rest, ObjectEnd), Object(ms))
      case Good(name) =>
        var colon := ReadToken(l.rest);
        if colon.token.kind != MemberSeparator then
          Failed(MissingColon, colon.token, Recover(colon.rest, ObjectEnd), Object(ms))
        else
          var key := CString(name);
          var v := ReadValue(cfg, colon.rest, Slot(ms, key));
          var ms' := Put(ms, key, v.value);
          if !v.ok then Outcome(false, Recover(v.rest, ObjectEnd), Object(ms'), v.errors)
          else
            var comma := ReadToken(v.rest);
            if comma.token.kind !in {ObjectEnd, ArraySeparator, CommentToken} then
              Failed(MissingCommaOrBrace, comma.token, Recover(comma.rest, ObjectEnd), Object(ms'))
            else
              var next := if comma.token.kind == CommentToken then SkipComments(comma.rest) else comma;
              if next.token.kind == ObjectEnd then Outcome(true, next.rest, Object(ms'), [])
              else ReadMembers(cfg, next.rest, ms', name)
  }

  /** The loop of readArray.  Any token but `]` separates two elements. */
  function ReadElements(cfg: Config, s: string, es: seq<Value>): (r: Outcome)
    ensures |r.rest| <= |s|
    decreases |s|, 2
  {
    var v := ReadValue(cfg, s, Null);
    var es' := es + [v.value];
    if !v.ok then Outcome(false, Recover(v.rest, ArrayEnd), Array(es'), v.errors)
    else
      var next := SkipComments(v.rest);
      if next.token.kind == ArrayEnd then Outcome(true, next.rest, Array(es'), [])
      else ReadElements(cfg, next.rest, es')
  }

  function Parse(cfg: Config, doc: string, root: Value): Outcome {
    var r := ReadValue(cfg, doc, root);
    var end := FirstToken(cfg, r.rest);
    if cfg.strictRoot && !IsArray(r.value) && !IsObject(r.value) then
      Outcome(false, end.rest, r.value, r.errors + [ErrorInfo(RootNotContainer, Token(ErrorToken, doc, |doc|))])
    else Outcome(r.ok, end.rest, r.value, r.errors)
  }

  // ---- the verdict and the errors agree ----

  /** A value adds no error if it is read, and otherwise exactly one, whatever was
      skipped to recover. */
  lemma {:induction false} VerdictIsNoErrors(cfg: Config, s: string, current: Value)
    ensures var r := ReadValue(cfg, s, current); |r.errors| == if r.ok then 0 else 1
    decreases |s|, 1
  {
    var l := FirstToken(cfg, s);
    match l.token.kind
    case ObjectBegin => MembersVerdict(cfg, l.rest, [], "");
    case ArrayBegin => ElementsVerdict(cfg, l.rest, []);
    case _ =>
  }

  lemma {:induction false} MembersVerdict(cfg: Config, s: string, ms: seq<Member>, last: string)
    ensures var r := ReadMembers(cfg, s, ms, last); |r.errors| == if r.ok then 0 else 1
    decreases |s|, 0
  {
    var l := SkipComments(s);
    if l.token.kind == StringToken && DecodeString(l.token.text).Good? {
      var name := DecodeString(l.token.text).text;
      var colon := ReadToken(l.rest);
      if colon.token.kind == MemberSeparator {
        VerdictIsNoErrors(cfg, colon.rest, Slot(ms, CString(name)));
        var v := ReadValue(cfg, colon.rest, Slot(ms, CString(name)));
        var comma := ReadToken(v.rest);
        if v.ok && comma.token.kind in {ObjectEnd, ArraySeparator, CommentToken} {
          var next := if comma.token.kind == CommentToken then SkipComments(comma.rest) else comma;
          MembersVerdict(cfg, next.rest, Put(ms, CString(name), v.value), name);
        }
      }
    }
  }

  lemma {:induction false} ElementsVerdict(cfg: Config, s: string, es: seq<Value>)
    ensures var r := ReadElements(cfg, s, es); |r.errors| == if r.ok then 0 else 1
    decreases |s|, 2
  {
    VerdictIsNoErrors(cfg, s, Null);
    var v := ReadValue(cfg, s, Null);
    if v.ok {
      ElementsVerdict(cfg, SkipComments(v.rest).rest, es + [v.value]);
    }
  }

  // ---- the parsed tree is well formed, whatever the text ----

  lemma {:induction false} AccumulateBound(s: string, value: nat, threshold: nat)
    requires value <= 10 * threshold - 1
    ensures var r := Accumulate(s, value, threshold); r.Whole? ==> r.n <= 10 * threshold - 1
  {
    if s != "" && IsDigit(s[0]) && value < threshold {
      AccumulateBound(s[1..], value * 10 + (s[0] as int - '0' as int), threshold);
    }
  }

  lemma NumberWellFormed(token: string, scan: string -> Option<real>)
    requires token != ""
    ensures var r := DecodeNumber(token, scan); r.Some? ==> WellFormed(r.value)
  {
    AccumulateBound(token, 0, POSITIVE_THRESHOLD);
    AccumulateBound(token[1..], 0, NEGATIVE_THRESHOLD);
  }

  lemma {:induction false} ParsedIsWellFormed(cfg: Config, s: string, current: Value)
    requires WellFormed(current)
    ensures WellFormed(ReadValue(cfg, s, current).value)
    decreases |s|, 1
  {
    var l := FirstToken(cfg, s);
    match l.token.kind
    case ObjectBegin => MembersStayWellFormed(cfg, l.rest, [], "");
    case ArrayBegin => ElementsStayWellFormed(cfg, l.rest, []);
    case NumberToken => NumberWellFormed(l.token.text, cfg.scan);
    case StringToken =>
      match DecodeString(l.token.text) {
        case Good(text) => CStringIsNulFree(text);
        case Bad(_) =>
      }
    case _ =>
  }

  lemma {:induction false} MembersStayWellFormed(cfg: Config, s: string, ms: seq<Member>, last: string)
    requires Sorted(ms) && MembersWellFormed(ms)
    ensures WellFormed(ReadMembers(cfg, s, ms, last).value)
    decreases |s|, 0
  {
    var l := SkipComments(s);
    if l.token.kind == StringToken && DecodeString(l.token.text).Good? {
      var name := DecodeString(l.token.text).text;
      var key := CString(name);
      var colon := ReadToken(l.rest);
      if colon.token.kind == MemberSeparator {
        SlotWellFormed(ms, key);
        ParsedIsWellFormed(cfg, colon.rest, Slot(ms, key));
        var v := ReadValue(cfg, colon.rest, Slot(ms, key));
        CStringIsNulFree(name);
        PutIsMapUpdate(ms, key, v.value);
        PutWellFormed(ms, key, v.value);
        var comma := ReadToken(v.rest);
        if v.ok && comma.token.kind in {ObjectEnd, ArraySeparator, CommentToken} {
          var next := if comma.token.kind == CommentToken then SkipComments(comma.rest) else comma;
          MembersStayWellFormed(cfg, next.rest, Put(ms, key, v.value), name);
        }
      }
    }
  }

  lemma {:induction false} ElementsStayWellFormed(cfg: Config, s: string, es: seq<Value>)
    requires forall i :: 0 <= i < |es| ==> WellFormed(es[i])
    ensures WellFormed(ReadElements(cfg, s, es).value)
    decreases |s|, 2
  {
    ParsedIsWellFormed(cfg, s, Null);
    var v := ReadValue(cfg, s, Null);
    if v.ok {
      ElementsStayWellFormed(cfg, SkipComments(v.rest).rest, es + [v.value]);
    }
  }
}

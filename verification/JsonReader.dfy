/** The class Reader of clientsdk/json/json_reader.cpp: a cursor into the
    document, a stack of the values being filled and a list of errors.  Each
    method is proved to do what the functions of JsonLexer, JsonDecoder and
    JsonParser say of the text after the cursor. */
module JsonReader {
  import opened JsonLexer
  import opened JsonDecoder
  import opened JsonParser
  import opened JsonValue
  import L = JsonLexer
  import D = JsonDecoder
  import P = JsonParser

  class Reader {
    const cfg: Config
    var doc: string
    var pos: nat
    var nodes: seq<Value>
    var errors: seq<ErrorInfo>

    constructor (cfg: Config)
      ensures this.cfg == cfg && pos <= |doc| && errors == []
    {
      this.cfg := cfg;
      doc, pos, nodes, errors := "", 0, [], [];
    }

    ghost function Rest(): string
      requires pos <= |doc|
      reads this
    {
      doc[pos..]
    }

    // ---- scanning ----

    /** NUL at the end of the document, without moving. */
    method GetNextChar() returns (c: char)
      requires pos <= |doc|
      modifies this`pos
      ensures old(pos) <= pos <= |doc|
      ensures old(Rest()) == "" ==> c == '\0' && pos == old(pos)
      ensures old(Rest()) != "" ==> c == old(Rest())[0] && pos == old(pos) + 1
    {
      if pos == |doc| {
        return '\0';
      }
      c := doc[pos];
      pos := pos + 1;
    }

    method SkipSpaces()
      requires pos <= |doc|
      modifies this`pos
      ensures old(pos) <= pos <= |doc| && Rest() == L.SkipSpaces(old(Rest()))
    {
      while pos != |doc|
        invariant old(pos) <= pos <= |doc|
        invariant L.SkipSpaces(Rest()) == L.SkipSpaces(old(Rest()))
      {
        if !IsSpace(doc[pos]) {
          break;
        }
        assert Rest()[1..] == doc[pos + 1..];
        pos := pos + 1;
      }
    }

    method ReadNumber()
      requires pos <= |doc|
      modifies this`pos
      ensures old(pos) <= pos <= |doc| && Rest() == ScanNumber(old(Rest()))
    {
      while pos != |doc|
        invariant old(pos) <= pos <= |doc|
        invariant ScanNumber(Rest()) == ScanNumber(old(Rest()))
      {
        if !IsNumberChar(doc[pos]) {
          break;
        }
        assert Rest()[1..] == doc[pos + 1..];
        pos := pos + 1;
      }
    }

    method ReadString() returns (ok: bool)
      requires pos <= |doc|
      modifies this`pos
      ensures old(pos) <= pos <= |doc| && Scan(ok, Rest()) == ScanString(old(Rest()))
    {
      var c := '\0';
      while pos != |doc|
        invariant old(pos) <= pos <= |doc|
        invariant c != '"'
        invariant ScanString(Rest()) == ScanString(old(Rest()))
      {
        ghost var before := Rest();
        c := GetNextChar();
        assert Rest() == before[1..];
        if c == '\\' {
          var _ := GetNextChar();
          assert |before| > 1 ==> Rest() == before[2..];
        } else if c == '"' {
          break;
        }
      }
      return c == '"';
    }

    method ReadCStyleComment() returns (ok: bool)
      requires pos <= |doc|
      modifies this`pos
      ensures old(pos) <= pos <= |doc| && Scan(ok, Rest()) == ScanCStyleComment(old(Rest()))
    {
      ghost var closed := false;
      while pos != |doc|
        invariant old(pos) <= pos <= |doc| && !closed
        invariant ScanCStyleComment(Rest()) == ScanCStyleComment(old(Rest()))
      {
        ghost var before := Rest();
        var c := GetNextChar();
        assert Rest() == before[1..];
        if c == '*' && pos < |doc| && doc[pos] == '/' {
          closed := true;
          assert Rest()[1..] == before[2..];
          break;
        }
      }
      ghost var before := Rest();
      var last := GetNextChar();
      assert closed ==> Rest() == before[1..];
      return last == '/';
    }

    method ReadCppStyleComment() returns (ok: bool)
      requires pos <= |doc|
      modifies this`pos
      ensures old(pos) <= pos <= |doc| && ok && Rest() == ScanCppStyleComment(old(Rest()))
    {
      while pos != |doc|
        invariant old(pos) <= pos <= |doc|
        invariant ScanCppStyleComment(Rest()) == ScanCppStyleComment(old(Rest()))
      {
        ghost var before := Rest();
        var c := GetNextChar();
        assert Rest() == before[1..];
        if c == '\r' || c == '\n' {
          return true;
        }
      }
      return true;
    }

    method ReadComment() returns (ok: bool)
      requires pos <= |doc|
      modifies this`pos
      ensures old(pos) <= pos <= |doc| && Scan(ok, Rest()) == ScanComment(old(Rest()))
    {
      ghost var before := Rest();
      var c := GetNextChar();
      assert before != "" ==> Rest() == before[1..];
      ok := false;
      if c == '*' {
        ok := ReadCStyleComment();
      } else if c == '/' {
        ok := ReadCppStyleComment();
      }
    }

    method Match(word: string) returns (ok: bool)
      requires pos <= |doc|
      modifies this`pos
      ensures old(pos) <= pos <= |doc| && Scan(ok, Rest()) == ScanWord(old(Rest()), word)
    {
      if |doc| - pos < |word| {
        return false;
      }
      var index := |word|;
      while index > 0
        invariant 0 <= index <= |word| && pos == old(pos)
        invariant forall i :: index <= i < |word| ==> doc[pos + i] == word[i]
      {
        index := index - 1;
        if doc[pos + index] != word[index] {
          assert Rest()[index] != word[index];
          return false;
        }
      }
      pos := pos + |word|;
      return true;
    }

    /** The token that starts with c, from after c. */
    method ReadTokenBody(c: char) returns (kind: Kind)
      requires pos <= |doc|
      modifies this`pos
      ensures old(pos) <= pos <= |doc| && (kind, Rest()) == Classify(c, old(Rest()))
    {
      var ok := true;
      match c {
        case '{' => kind := ObjectBegin;
        case '}' => kind := ObjectEnd;
        case '[' => kind := ArrayBegin;
        case ']' => kind := ArrayEnd;
        case ',' => kind := ArraySeparator;
        case ':' => kind := MemberSeparator;
        case '"' => kind := StringToken; ok := ReadString();
        case '/' => kind := CommentToken; ok := ReadComment();
        case 't' => kind := TrueToken; ok := Match("rue");
        case 'f' => kind := FalseToken; ok := Match("alse");
        case 'n' => kind := NullToken; ok := Match("ull");
        case '\0' => kind := EndOfStream;
        case _ =>
          kind := NumberToken;
          if IsDigit(c) || c == '-' {
            ReadNumber();
          } else {
            ok := false;
          }
      }
      if !ok {
        kind := ErrorToken;
      }
    }

    method ReadToken() returns (token: Token)
      requires pos <= |doc|
      modifies this`pos
      ensures old(pos) <= pos <= |doc| && Lexed(token, Rest()) == L.ReadToken(old(Rest()))
    {
      SkipSpaces();
      var start := pos;
      ghost var t := Rest();
      var c := GetNextChar();
      if start == |doc| {
        return Token(EndOfStream, "", 0);
      }
      assert Rest() == t[1..];
      var kind := ReadTokenBody(c);
      token := Token(kind, doc[start..pos], |doc| - start);
      assert doc[start..pos] == t[..|t| - |Rest()|];
    }

    method SkipCommentTokens() returns (token: Token)
      requires pos <= |doc|
      modifies this`pos
      ensures old(pos) <= pos <= |doc| && Lexed(token, Rest()) == FirstToken(cfg, old(Rest()))
    {
      token := ReadToken();
      if cfg.allowComments {
        while token.kind == CommentToken
          invariant old(pos) <= pos <= |doc|
          invariant SkipComments(old(Rest())) ==
                    if token.kind == CommentToken then SkipComments(Rest()) else Lexed(token, Rest())
          decreases token.kind == CommentToken, |doc| - pos
        {
          token := ReadToken();
        }
      }
    }

    /** A loop over comment tokens, whatever the features allow. */
    method SkipCommentsFrom(first: Token) returns (token: Token)
      requires pos <= |doc|
      modifies this`pos
      ensures old(pos) <= pos <= |doc|
      ensures Lexed(token, Rest()) ==
              if first.kind == CommentToken then SkipComments(old(Rest())) else Lexed(first, old(Rest()))
    {
      token := first;
      while token.kind == CommentToken
        invariant old(pos) <= pos <= |doc|
        invariant (if token.kind == CommentToken then SkipComments(Rest()) else Lexed(token, Rest()))
               == if first.kind == CommentToken then SkipComments(old(Rest())) else Lexed(first, old(Rest()))
        decreases token.kind == CommentToken, |doc| - pos
      {
        token := ReadToken();
      }
    }

    // ---- errors ----

    method AddError(kind: ErrorKind, token: Token) returns (ok: bool)
      modifies this`errors
      ensures !ok && errors == old(errors) + [ErrorInfo(kind, token)]
    {
      errors := errors + [ErrorInfo(kind, token)];
      return false;
    }

    method RecoverFromError(until: Kind) returns (ok: bool)
      requires pos <= |doc|
      modifies this`pos, this`errors
      ensures old(pos) <= pos <= |doc|
      ensures !ok && errors == old(errors) && Rest() == Recover(old(Rest()), until)
    {
      var errorCount := |errors|;
      while true
        invariant old(pos) <= pos <= |doc| && errors == old(errors)
        invariant Recover(Rest(), until) == Recover(old(Rest()), until)
        decreases |doc| - pos
      {
        var skip := ReadToken();
        if skip.kind == until || skip.kind == EndOfStream {
          break;
        }
      }
      errors := errors[..errorCount];
      return false;
    }

    method AddErrorAndRecover(kind: ErrorKind, token: Token, until: Kind) returns (ok: bool)
      requires pos <= |doc|
      modifies this`pos, this`errors
      ensures old(pos) <= pos <= |doc|
      ensures !ok && errors == old(errors) + [ErrorInfo(kind, token)] && Rest() == Recover(old(Rest()), until)
    {
      ok := AddError(kind, token);
      ok := RecoverFromError(until);
    }

    // ---- decoding ----

    /** Reads four hexadecimal digits of text before `end`. */
    method DecodeUnicodeEscapeSequence(token: Token, start: nat, end: nat)
      returns (ok: bool, current: nat, unicode: nat)
      requires start <= end <= |token.text|
      modifies this`errors
      ensures start <= current <= end
      ensures match DecodeEscapeSequence(token.text[start..end])
              case CodePoint(u, rest) =>
                ok && unicode == u && rest == token.text[current..end] && errors == old(errors)
              case BadCodePoint(e) => !ok && errors == old(errors) + [ErrorInfo(e, token)]
    {
      current, unicode := start, 0;
      if end - start < 4 {
        ok := AddError(FourDigitsExpected, token);
        return;
      }
      ghost var body := token.text[start..end];
      for index := 0 to 4
        invariant current == start + index && errors == old(errors)
        invariant HexDigits(token.text[current..end], 4 - index, unicode) == HexDigits(body, 4, 0)
      {
        var c := token.text[current];
        assert token.text[current..end][1..] == token.text[current + 1..end];
        current := current + 1;
        match HexDigit(c) {
          case Some(d) => unicode := unicode * 16 + d;
          case None =>
            ok := AddError(HexDigitExpected, token);
            return;
        }
      }
      return true, current, unicode;
    }

    method DecodeUnicodeCodePoint(token: Token, start: nat, end: nat)
      returns (ok: bool, current: nat, unicode: nat)
      requires start <= end <= |token.text|
      modifies this`errors
      ensures start <= current <= end
      ensures match DecodeCodePoint(token.text[start..end])
              case CodePoint(u, rest) =>
                ok && unicode == u && rest == token.text[current..end] && errors == old(errors)
              case BadCodePoint(e) => !ok && errors == old(errors) + [ErrorInfo(e, token)]
    {
      ok, current, unicode := DecodeUnicodeEscapeSequence(token, start, end);
      if !ok || !(0xD800 <= unicode <= 0xDBFF) {
        return;
      }
      if end - current < 6 {
        ok := AddError(SixCharactersExpected, token);
        return;
      }
      ghost var rest := token.text[current..end];
      if token.text[current] == '\\' && token.text[current + 1] == 'u' {
        assert rest[2..] == token.text[current + 2..end];
        var surrogatePair;
        ok, current, surrogatePair := DecodeUnicodeEscapeSequence(token, current + 2, end);
        if ok {
          unicode := 0x10000 + unicode % 0x400 * 0x400 + surrogatePair % 0x400;
        }
      } else {
        ok := AddError(SecondHalfExpected, token);
      }
    }

    /** Never looks at or past the closing quote. */
    method DecodeStringToken(token: Token) returns (ok: bool, decoded: string)
      requires |token.text| >= 2
      modifies this`errors
      ensures match D.DecodeString(token.text)
              case Good(text) => ok && decoded == text && errors == old(errors)
              case Bad(e) => !ok && errors == old(errors) + [ErrorInfo(e, token)]
    {
      var current, end := 1, |token.text| - 1;
      decoded := "";
      ghost var body := token.text[1..end];
      while current != end
        invariant 1 <= current <= end && errors == old(errors)
        invariant DecodeBody(body) == Prepend(decoded, DecodeBody(token.text[current..end]))
        decreases end - current
      {
        ghost var rest := token.text[current..end];
        var c := token.text[current];
        current := current + 1;
        assert rest[1..] == token.text[current..end];
        if c == '"' {
          break;
        } else if c == '\\' {
          if current == end {
            ok := AddError(EmptyEscape, token);
            return;
          }
          var escape := token.text[current];
          current := current + 1;
          assert rest[2..] == token.text[current..end];
          if escape == 'u' {
            var unicode;
            ok, current, unicode := DecodeUnicodeCodePoint(token, current, end);
            if !ok {
              return;
            }
            PrependPrepend(decoded, CodePointToUtf8(unicode), DecodeBody(token.text[current..end]));
            decoded := decoded + CodePointToUtf8(unicode);
          } else {
            match SimpleEscape(escape) {
              case None =>
                ok := AddError(BadEscape, token);
                return;
              case Some(e) =>
                PrependPrepend(decoded, [e], DecodeBody(rest[2..]));
                decoded := decoded + [e];
            }
          }
        } else {
          PrependPrepend(decoded, [c], DecodeBody(rest[1..]));
          decoded := decoded + [c];
        }
      }
      return true, decoded;
    }

    static lemma PrependPrepend(a: string, b: string, d: Decoded)
      ensures Prepend(a, Prepend(b, d)) == Prepend(a + b, d)
    {
      if d.Good? {
        assert a + (b + d.text) == a + b + d.text;
      }
    }

    method DecodeNumberToken(token: Token) returns (ok: bool)
      requires token.text != "" && nodes != []
      modifies this`nodes, this`errors
      ensures match D.DecodeNumber(token.text, cfg.scan)
              case Some(v) => ok && nodes == old(nodes)[..|old(nodes)| - 1] + [v] && errors == old(errors)
              case None => !ok && nodes == old(nodes) && errors == old(errors) + [ErrorInfo(NotANumber, token)]
    {
      var text := token.text;
      var isDouble := false;
      for inspect := 0 to |text|
        invariant isDouble <==> HasDoubleChar(text[..inspect])
      {
        var c := text[inspect];
        isDouble := isDouble || c == '.' || c == 'e' || c == 'E' || c == '+' || (c == '-' && inspect != 0);
      }
      if isDouble {
        ok := DecodeDoubleToken(token);
        return;
      }
      var isNegative := text[0] == '-';
      var current := if isNegative then 1 else 0;
      ghost var digits := text[current..];
      var threshold := if isNegative then NEGATIVE_THRESHOLD else POSITIVE_THRESHOLD;
      var value: nat := 0;
      while current < |text|
        invariant current <= |text| && nodes == old(nodes) && errors == old(errors)
        invariant Accumulate(text[current..], value, threshold) == Accumulate(digits, 0, threshold)
      {
        var c := text[current];
        assert text[current..][1..] == text[current + 1..];
        current := current + 1;
        if !IsDigit(c) {
          ok := AddError(NotANumber, token);
          return;
        }
        if value >= threshold {
          ok := DecodeDoubleToken(token);
          return;
        }
        value := value * 10 + (c as int - '0' as int);
      }
      SetCurrentValue(if isNegative then Int(0 - value) else if value <= MAX_INT then Int(value) else UInt(value));
      return true;
    }

    method DecodeDoubleToken(token: Token) returns (ok: bool)
      requires nodes != []
      modifies this`nodes, this`errors
      ensures match DecodeDouble(token.text, cfg.scan)
              case Some(v) => ok && nodes == old(nodes)[..|old(nodes)| - 1] + [v] && errors == old(errors)
              case None => !ok && nodes == old(nodes) && errors == old(errors) + [ErrorInfo(NotANumber, token)]
    {
      match cfg.scan(token.text) {
        case Some(r) => SetCurrentValue(Real(r)); ok := true;
        case None => ok := AddError(NotANumber, token);
      }
    }

    // ---- values ----

    /** Assigns to the value on top of the node stack. */
    method SetCurrentValue(v: Value)
      requires nodes != []
      modifies this`nodes
      ensures nodes == old(nodes)[..|old(nodes)| - 1] + [v]
    {
      nodes := nodes[..|nodes| - 1] + [v];
    }

    /** Reads one value into the top of the node stack; the stack below it, and
        so its depth, stay as they are. */
    method ReadValue() returns (ok: bool)
      requires pos <= |doc| && nodes != []
      modifies this`pos, this`nodes, this`errors
      ensures old(pos) <= pos <= |doc|
      ensures var r := P.ReadValue(cfg, old(Rest()), old(nodes[|nodes| - 1]));
              && ok == r.ok && Rest() == r.rest && errors == old(errors) + r.errors
              && nodes == old(nodes)[..|old(nodes)| - 1] + [r.value]
      decreases |doc| - pos, 1
    {
      ghost var below, current := nodes[..|nodes| - 1], nodes[|nodes| - 1];
      assert nodes == below + [current];
      var token := SkipCommentTokens();
      ok := true;
      match token.kind {
        case ObjectBegin => ok := ReadObject();
        case ArrayBegin => ok := ReadArray();
        case NumberToken => ok := DecodeNumberToken(token);
        case StringToken =>
          var decoded;
          ok, decoded := DecodeStringToken(token);
          if ok {
            SetCurrentValue(String(CString(decoded)));
          }
        case TrueToken => SetCurrentValue(Bool(true));
        case FalseToken => SetCurrentValue(Bool(false));
        case NullToken => SetCurrentValue(Null);
        case _ => ok := AddError(ValueExpected, token);
      }
    }

    /** From after the opening brace. */
    method ReadObject() returns (ok: bool)
      requires pos <= |doc| && nodes != []
      modifies this`pos, this`nodes, this`errors
      ensures old(pos) <= pos <= |doc|
      ensures var r := ReadMembers(cfg, old(Rest()), [], "");
              && ok == r.ok && Rest() == r.rest && errors == old(errors) + r.errors
              && nodes == old(nodes)[..|old(nodes)| - 1] + [r.value]
      decreases |doc| - pos, 4
    {
      ghost var below := nodes[..|nodes| - 1];
      var name := "";
      SetCurrentValue(Object([]));
      ghost var ms := [];
      while true
        invariant old(pos) <= pos <= |doc| && errors == old(errors)
        invariant nodes == below + [Object(ms)]
        invariant ReadMembers(cfg, Rest(), ms, name) == ReadMembers(cfg, old(Rest()), [], "")
        decreases |doc| - pos
      {
        var done;
        done, ok, name, ms := ReadMember(name, below, ms);
        if done {
          return;
        }
      }
    }

    /** One round of the loop of readObject: either the end of the object, good
        or bad, or one more member and the separator after it. */
    method ReadMember(last: string, ghost below: seq<Value>, ghost ms: seq<Member>)
      returns (done: bool, ok: bool, name: string, ghost ms': seq<Member>)
      requires pos <= |doc| && nodes == below + [Object(ms)]
      modifies this`pos, this`nodes, this`errors
      ensures old(pos) <= pos <= |doc| && nodes == below + [Object(ms')]
      ensures var r := ReadMembers(cfg, old(Rest()), ms, last);
              if done then
                ok == r.ok && Rest() == r.rest && errors == old(errors) + r.errors && Object(ms') == r.value
              else pos > old(pos) && errors == old(errors) && ReadMembers(cfg, Rest(), ms', name) == r
      decreases |doc| - pos, 3
    {
      ms' := ms;
      done, name := true, last;
      var token := ReadToken();
      token := SkipCommentsFrom(token);
      if token.kind == ObjectEnd && name == "" {
        ok := true;
        return;
      }
      if token.kind != StringToken {
        ok := AddErrorAndRecover(MissingName, token, ObjectEnd);
        return;
      }
      ok, name := DecodeStringToken(token);
      if !ok {
        ok := RecoverFromError(ObjectEnd);
        return;
      }
      var colon := ReadToken();
      if colon.kind != MemberSeparator {
        ok := AddErrorAndRecover(MissingColon, colon, ObjectEnd);
        return;
      }
      ghost var v := P.ReadValue(cfg, Rest(), Slot(ms, CString(name)));
      VerdictIsNoErrors(cfg, Rest(), Slot(ms, CString(name)));
      ok := ReadMemberValue(CString(name));
      ms' := Put(ms, CString(name), v.value);
      if !ok {
        ok := RecoverFromError(ObjectEnd);
        return;
      }
      assert errors == old(errors);
      done, ok := ReadMemberEnd();
    }

    /** From after the value of a member. */
    method ReadMemberEnd() returns (done: bool, ok: bool)
      requires pos <= |doc|
      modifies this`pos, this`errors
      ensures old(pos) <= pos <= |doc|
      ensures var comma := L.ReadToken(old(Rest()));
              if comma.token.kind !in {ObjectEnd, ArraySeparator, CommentToken} then
                && done && !ok && errors == old(errors) + [ErrorInfo(MissingCommaOrBrace, comma.token)]
                && Rest() == Recover(comma.rest, ObjectEnd)
              else
                var next := if comma.token.kind == CommentToken then SkipComments(comma.rest) else comma;
                ok && errors == old(errors) && Rest() == next.rest && (done <==> next.token.kind == ObjectEnd)
    {
      var comma := ReadToken();
      if comma.kind != ObjectEnd && comma.kind != ArraySeparator && comma.kind != CommentToken {
        ok := AddErrorAndRecover(MissingCommaOrBrace, comma, ObjectEnd);
        return true, false;
      }
      comma := SkipCommentsFrom(comma);
      return comma.kind == ObjectEnd, true;
    }

    /** Pushes the member called key, reads into it and pops it. */
    method ReadMemberValue(key: string) returns (ok: bool)
      requires pos <= |doc| && nodes != [] && nodes[|nodes| - 1].Object?
      modifies this`pos, this`nodes, this`errors
      ensures old(pos) <= pos <= |doc|
      ensures var ms := old(nodes[|nodes| - 1].members);
              var v := P.ReadValue(cfg, old(Rest()), Slot(ms, key));
              && ok == v.ok && Rest() == v.rest && errors == old(errors) + v.errors
              && nodes == old(nodes)[..|old(nodes)| - 1] + [Object(Put(ms, key, v.value))]
      decreases |doc| - pos, 2
    {
      var top := |nodes| - 1;
      nodes := nodes + [Slot(nodes[top].members, key)];
      ok := ReadValue();
      var child := nodes[top + 1];
      nodes := nodes[..top + 1];
      SetCurrentValue(Object(Put(nodes[top].members, key, child)));
    }

    /** From after the opening bracket. */
    method ReadArray() returns (ok: bool)
      requires pos <= |doc| && nodes != []
      modifies this`pos, this`nodes, this`errors
      ensures old(pos) <= pos <= |doc|
      ensures var s := old(Rest());
              var t := L.SkipSpaces(s);
              var r := if t != "" && t[0] == ']' then Outcome(true, L.ReadToken(s).rest, Array([]), [])
                       else ReadElements(cfg, s, []);
              && ok == r.ok && Rest() == r.rest && errors == old(errors) + r.errors
              && nodes == old(nodes)[..|old(nodes)| - 1] + [r.value]
      decreases |doc| - pos, 6
    {
      SetCurrentValue(Array([]));
      ghost var s := Rest();
      SkipSpaces();
      SkipSpacesTwice(cfg, s);
      if pos < |doc| && doc[pos] == ']' {
        var _ := ReadToken();
        return true;
      }
      ok := ReadArrayElements();
    }

    /** The loop of readArray. */
    method ReadArrayElements() returns (ok: bool)
      requires pos <= |doc| && nodes != [] && nodes[|nodes| - 1] == Array([])
      modifies this`pos, this`nodes, this`errors
      ensures old(pos) <= pos <= |doc|
      ensures var r := ReadElements(cfg, old(Rest()), []);
              && ok == r.ok && Rest() == r.rest && errors == old(errors) + r.errors
              && nodes == old(nodes)[..|old(nodes)| - 1] + [r.value]
      decreases |doc| - pos, 5
    {
      ghost var below, es, end := nodes[..|nodes| - 1], [], ReadElements(cfg, Rest(), []);
      var more := true;
      ok := true;
      while more
        invariant old(pos) <= pos <= |doc| && ElementsGoOn(ok, more, old(errors), below, es, end)
        decreases more, |doc| - pos
      {
        ok, more, es := ReadArrayRound(old(errors), below, es, end);
      }
    }

    /** The elements come to the same end as from the start; without more they are there. */
    ghost predicate ElementsGoOn(ok: bool, more: bool, before: seq<ErrorInfo>, below: seq<Value>, es: seq<Value>,
                                 end: Outcome)
      requires pos <= |doc|
      reads this
    {
      if more then errors == before && nodes == below + [Array(es)] && ReadElements(cfg, Rest(), es) == end
      else ok == end.ok && Rest() == end.rest && errors == before + end.errors && nodes == below + [end.value]
    }

    /** One round: an element, and the token behind it. */
    method ReadArrayRound(ghost before: seq<ErrorInfo>, ghost below: seq<Value>, ghost es: seq<Value>,
                          ghost end: Outcome)
        returns (ok: bool, more: bool, ghost es': seq<Value>)
      requires pos <= |doc| && ElementsGoOn(true, true, before, below, es, end)
      modifies this`pos, this`nodes, this`errors
      ensures old(pos) <= pos <= |doc| && ElementsGoOn(ok, more, before, below, es', end)
      ensures more ==> pos > old(pos)
      decreases |doc| - pos, 4
    {
      ghost var v := P.ReadValue(cfg, Rest(), Null);
      VerdictIsNoErrors(cfg, Rest(), Null);
      ok := ReadElement();
      es' := es + [v.value];
      if !ok {
        ok := RecoverFromError(ArrayEnd);
        return ok, false, es';
      }
      more := AnotherElement();
    }

    /** Takes the token behind an element, past comments; anything but the closing
        bracket separates. */
    method AnotherElement() returns (more: bool)
      requires pos <= |doc|
      modifies this`pos
      ensures old(pos) <= pos <= |doc|
      ensures var next := L.SkipComments(old(Rest()));
              Rest() == next.rest && more == (next.token.kind != ArrayEnd)
    {
      var token := ReadToken();
      token := SkipCommentsFrom(token);
      more := token.kind != ArrayEnd;
    }

    static lemma {:induction false} SkipSpacesTwice(cfg: Config, s: string)
      ensures L.SkipSpaces(L.SkipSpaces(s)) == L.SkipSpaces(s)
      ensures ReadElements(cfg, L.SkipSpaces(s), []) == ReadElements(cfg, s, [])
    {
      SpacesBeforeToken(s);
      assert FirstToken(cfg, L.SkipSpaces(s)) == FirstToken(cfg, s);
      assert P.ReadValue(cfg, L.SkipSpaces(s), Null) == P.ReadValue(cfg, s, Null);
    }

    static lemma {:induction false} SpacesBeforeToken(s: string)
      ensures L.SkipSpaces(L.SkipSpaces(s)) == L.SkipSpaces(s)
      ensures L.ReadToken(L.SkipSpaces(s)) == L.ReadToken(s)
      ensures L.SkipComments(L.SkipSpaces(s)) == L.SkipComments(s)
    {
    }

    /** Appends a null element, reads into it and pops it. */
    method ReadElement() returns (ok: bool)
      requires pos <= |doc| && nodes != [] && nodes[|nodes| - 1].Array?
      modifies this`pos, this`nodes, this`errors
      ensures old(pos) <= pos <= |doc|
      ensures var es := old(nodes[|nodes| - 1].elements);
              var v := P.ReadValue(cfg, old(Rest()), Null);
              && ok == v.ok && Rest() == v.rest && errors == old(errors) + v.errors
              && nodes == old(nodes)[..|old(nodes)| - 1] + [Array(es + [v.value])]
      decreases |doc| - pos, 3
    {
      var top := |nodes| - 1;
      nodes := nodes + [Null];
      ok := ReadValue();
      var child := nodes[top + 1];
      nodes := nodes[..top + 1];
      SetCurrentValue(Array(nodes[top].elements + [child]));
    }

    /** Parses a whole document on top of what the caller's root held. */
    method Parse(document: string, root: Value) returns (ok: bool, value: Value)
      modifies this
      ensures var r := P.Parse(cfg, document, root);
              ok == r.ok && value == r.value && errors == r.errors
      ensures doc == document && pos <= |doc| && nodes == [value]
    {
      doc, pos, errors, nodes := document, 0, [], [root];
      ok := ReadValue();
      var _ := SkipCommentTokens();
      value := nodes[0];
      if cfg.strictRoot {
        if !IsArray(value) && !IsObject(value) {
          ok := AddError(RootNotContainer, Token(ErrorToken, doc, |doc|));
        }
      }
    }
  }
}

/** What the scanners and decoders of clientsdk/json/json_reader.cpp make of single
    tokens: where they end, what they hold and which characters they stand for. */
module JsonLexicon {
  import opened JsonLexer
  import opened JsonDecoder
  import opened JsonValue

  // ---- tokens ----

  predicate IsBlank(c: char) {
    c in {' ', '\t', '\r', '\n'}
  }

  predicate InNumber(c: char) {
    '0' <= c <= '9' || c in {'.', 'e', 'E', '+', '-'}
  }

  /** A token is what stands between white space and the text behind it. */
  lemma {:induction false} TokenSplits(s: string) returns (blanks: string)
    ensures var l := ReadToken(s);
            && s == blanks + l.token.text + l.rest && (forall i :: 0 <= i < |blanks| ==> IsBlank(blanks[i]))
            && (l.token.text != "" ==> !IsBlank(l.token.text[0]))
            && (l.token.text == "" ==> l.rest == "")
  {
    blanks := SkippedBlanks(s);
    var t := SkipSpaces(s);
    if t != "" {
      ClassifySplits(t[0], t[1..]);
      var rest := Classify(t[0], t[1..]).1;
      assert t == t[..|t| - |rest|] + t[|t| - |rest|..];
      assert t[|t| - |rest|..] == t[1..][|t| - 1 - |rest|..];
    }
  }

  lemma {:induction false} SkippedBlanks(s: string) returns (blanks: string)
    ensures s == blanks + SkipSpaces(s) && forall i :: 0 <= i < |blanks| ==> IsBlank(blanks[i])
  {
    if s != "" && IsSpace(s[0]) {
      var more := SkippedBlanks(s[1..]);
      blanks := [s[0]] + more;
      assert s == [s[0]] + s[1..];
    } else {
      blanks := "";
    }
  }

  predicate IsTail(r: string, s: string) {
    |r| <= |s| && r == s[|s| - |r|..]
  }

  lemma {:induction false} TailStep(r: string, s: string, k: nat)
    requires k <= |s| && IsTail(r, s[k..])
    ensures IsTail(r, s)
  {
    assert s[k..][|s| - k - |r|..] == s[|s| - |r|..];
  }

  /** What a token's first character leaves to be scanned. */
  lemma {:induction false} ClassifyIs(c: char, s: string)
    ensures Classify(c, s).1 ==
            if c == '"' then ScanString(s).rest
            else if c == '/' then ScanComment(s).rest
            else if c == 't' then ScanWord(s, "rue").rest
            else if c == 'f' then ScanWord(s, "alse").rest
            else if c == 'n' then ScanWord(s, "ull").rest
            else if IsDigit(c) || c == '-' then ScanNumber(s)
            else s
  {
  }

  lemma {:induction false} ClassifySplits(c: char, s: string)
    ensures IsTail(Classify(c, s).1, s)
  {
    var r := Classify(c, s).1;
    ClassifyIs(c, s);
    if c == '"' {
      StringTail(s);
    } else if c == '/' {
      CommentTail(s);
    } else if c == 't' || c == 'f' || c == 'n' {
      WordTail(s, if c == 't' then "rue" else if c == 'f' then "alse" else "ull");
    } else if IsDigit(c) || c == '-' {
      NumberTail(s);
    } else {
      assert r == s[|s| - |r|..];
    }
  }

  lemma {:induction false} WordTail(s: string, word: string)
    ensures IsTail(ScanWord(s, word).rest, s)
  {
  }

  lemma {:induction false} NumberTail(s: string)
    ensures IsTail(ScanNumber(s), s)
  {
    if s != "" && IsNumberChar(s[0]) {
      NumberTail(s[1..]);
      TailStep(ScanNumber(s), s, 1);
    }
  }

  lemma {:induction false} StringTail(s: string)
    ensures IsTail(ScanString(s).rest, s)
  {
    if s != "" && s[0] == '\\' && |s| > 1 {
      StringTail(s[2..]);
      TailStep(ScanString(s).rest, s, 2);
    } else if s != "" && s[0] != '"' && s[0] != '\\' {
      StringTail(s[1..]);
      TailStep(ScanString(s).rest, s, 1);
    }
  }

  lemma {:induction false} CommentTail(s: string)
    ensures IsTail(ScanComment(s).rest, s)
  {
    if s != "" && s[0] == '*' {
      var _ := CommentEnds(s[1..]);
      TailStep(ScanComment(s).rest, s, 1);
    } else if s != "" && s[0] == '/' {
      var _ := LineEnds(s[1..]);
      TailStep(ScanComment(s).rest, s, 1);
    }
  }

  /** What each kind of token looks like. */
  predicate Looks(kind: Kind, text: string) {
    match kind
    case ObjectBegin => text == "{"
    case ObjectEnd => text == "}"
    case ArrayBegin => text == "["
    case ArrayEnd => text == "]"
    case ArraySeparator => text == ","
    case MemberSeparator => text == ":"
    case TrueToken => text == "true"
    case FalseToken => text == "false"
    case NullToken => text == "null"
    case StringToken => |text| >= 2 && text[0] == '"' && text[|text| - 1] == '"'
    case NumberToken =>
      && text != "" && ('0' <= text[0] <= '9' || text[0] == '-')
      && forall i :: 0 < i < |text| ==> InNumber(text[i])
    case CommentToken => |text| >= 2 && text[0] == '/' && (text[1] == '*' || text[1] == '/')
    case _ => true
  }

  lemma {:induction false} TokenLooks(s: string)
    ensures Looks(ReadToken(s).token.kind, ReadToken(s).token.text)
  {
    var t := SkipSpaces(s);
    if t != "" {
      var c, u := t[0], t[1..];
      var (kind, rest) := Classify(c, u);
      var text := t[..|t| - |rest|];
      if kind == StringToken {
        StringLooks(t, text);
      } else if kind == NumberToken {
        NumberTokenLooks(t, text);
      } else if kind == TrueToken || kind == FalseToken || kind == NullToken {
        WordLooks(t, kind, text);
      } else if kind == CommentToken {
        CommentLooks(t, text);
      } else {
        assert |rest| == |u| ==> text == [c];
      }
    }
  }

  lemma {:induction false} StringLooks(t: string, text: string)
    requires t != "" && t[0] == '"' && ScanString(t[1..]).ok && text == t[..|t| - |ScanString(t[1..]).rest|]
    ensures Looks(StringToken, text)
  {
    var k := StringEnds(t[1..]);
    assert text == t[..k + 2] && t[k + 1] == t[1..][k];
  }

  lemma {:induction false} NumberTokenLooks(t: string, text: string)
    requires t != "" && (IsDigit(t[0]) || t[0] == '-') && text == t[..|t| - |ScanNumber(t[1..])|]
    ensures Looks(NumberToken, text)
  {
    NumberLooks(t[1..]);
    assert forall i :: 0 < i < |text| ==> text[i] == t[1..][i - 1];
  }

  lemma {:induction false} WordLooks(t: string, kind: Kind, text: string)
    requires t != "" && Classify(t[0], t[1..]).0 == kind && text == t[..|t| - |Classify(t[0], t[1..]).1|]
    requires kind == TrueToken || kind == FalseToken || kind == NullToken
    ensures Looks(kind, text)
  {
    var word := if kind == TrueToken then "rue" else if kind == FalseToken then "alse" else "ull";
    assert word <= t[1..] && text == [t[0]] + word;
  }

  lemma {:induction false} CommentLooks(t: string, text: string)
    requires t != "" && t[0] == '/' && ScanComment(t[1..]).ok && text == t[..|t| - |ScanComment(t[1..]).rest|]
    ensures Looks(CommentToken, text)
  {
    assert t[1..][0] == t[1];
  }

  /** A number token ends before the first character that is not of a number. */
  lemma {:induction false} NumberLooks(s: string)
    ensures var rest := ScanNumber(s);
            && |rest| <= |s| && (rest != "" ==> !InNumber(rest[0]))
            && forall i :: 0 <= i < |s| - |rest| ==> InNumber(s[i])
  {
    if s != "" && IsNumberChar(s[0]) {
      NumberLooks(s[1..]);
      assert forall i :: 0 < i < |s| ==> s[i] == s[1..][i - 1];
    }
  }

  /** Text in which every quote is behind a backslash that is not itself escaped. */
  predicate NoBareQuote(p: string) {
    p == "" || (p[0] != '"' && if p[0] == '\\' then |p| > 1 && NoBareQuote(p[2..]) else NoBareQuote(p[1..]))
  }

  /** A string token ends at the first bare quote. */
  lemma {:induction false} StringEnds(s: string) returns (k: nat)
    requires ScanString(s).ok
    ensures k < |s| && s[k] == '"' && NoBareQuote(s[..k]) && ScanString(s).rest == s[k + 1..]
  {
    if s[0] == '"' {
      k := 0;
    } else if s[0] == '\\' {
      k := StringEnds(s[2..]);
      assert s[..k + 2][2..] == s[2..][..k];
      k := k + 2;
    } else {
      k := StringEnds(s[1..]);
      assert s[..k + 1][1..] == s[1..][..k];
      k := k + 1;
    }
  }

  lemma {:induction false} StringEndsThere(p: string, r: string)
    requires NoBareQuote(p)
    ensures ScanString(p + "\"" + r) == Scan(true, r)
  {
    var s := p + "\"" + r;
    if p == "" {
      assert s[1..] == r;
    } else if p[0] == '\\' {
      StringEndsThere(p[2..], r);
      assert s[2..] == p[2..] + "\"" + r;
    } else {
      StringEndsThere(p[1..], r);
      assert s[1..] == p[1..] + "\"" + r;
    }
  }

  predicate Closes(s: string, i: nat) {
    i + 1 < |s| && s[i] == '*' && s[i + 1] == '/'
  }

  /** A comment of the one style ends behind its first closing mark, and without
      one it is no token. */
  lemma {:induction false} CommentEnds(s: string) returns (k: nat)
    ensures k <= |s| && forall i :: 0 <= i < k ==> !Closes(s, i)
    ensures var r := ScanCStyleComment(s);
            if r.ok then Closes(s, k) && r.rest == s[k + 2..] else k == |s| && r.rest == ""
  {
    k := 0;
    if s != "" && !Closes(s, 0) {
      var t := s[1..];
      var m := CommentEnds(t);
      k := m + 1;
      forall i | 0 <= i < k ensures !Closes(s, i) {
        if i > 0 {
          assert Closes(t, i - 1) == Closes(s, i);
        }
      }
      if ScanCStyleComment(t).ok {
        assert Closes(s, k) && t[m + 2..] == s[k + 2..];
      }
    }
  }

  /** One of the other style ends behind the line. */
  lemma {:induction false} LineEnds(s: string) returns (k: nat)
    ensures k <= |s| && forall i :: 0 <= i < k ==> s[i] != '\r' && s[i] != '\n'
    ensures if k < |s| then (s[k] == '\r' || s[k] == '\n') && ScanCppStyleComment(s) == s[k + 1..]
            else ScanCppStyleComment(s) == ""
  {
    k := 0;
    if s != "" && s[0] != '\r' && s[0] != '\n' {
      k := LineEnds(s[1..]);
      assert forall i :: 0 < i < |s| ==> s[i] == s[1..][i - 1];
      k := k + 1;
    }
  }

  // ---- escapes ----

  /** The one-letter escapes and the characters they stand for. */
  predicate StandsFor(e: char, c: char) {
    || (e == c && e in {'"', '\\', '/'})
    || (e == 'b' && c as int == 8) || (e == 'f' && c as int == 12) || (e == 'n' && c as int == 10)
    || (e == 'r' && c as int == 13) || (e == 't' && c as int == 9)
  }

  lemma {:induction false} EscapeDecodes(e: char, c: char, r: string)
    requires StandsFor(e, c)
    ensures DecodeBody("\\" + [e] + r) == Prepend([c], DecodeBody(r))
  {
    EscapeTaken(e, r);
  }

  lemma {:induction false} EscapeTaken(e: char, r: string)
    requires e != 'u'
    ensures DecodeBody("\\" + [e] + r) ==
            if SimpleEscape(e).None? then Bad(BadEscape) else Prepend([SimpleEscape(e).value], DecodeBody(r))
  {
    var s := "\\" + [e] + r;
    assert s[0] == '\\' && s[1] == e && s[2..] == r;
  }

  /** There are no others. */
  lemma {:induction false} OtherEscapesFail(e: char, r: string)
    requires e !in {'"', '\\', '/', 'b', 'f', 'n', 'r', 't', 'u'}
    ensures DecodeBody("\\" + [e] + r) == Bad(BadEscape)
  {
    EscapeTaken(e, r);
  }

  /** Other text stands for itself. */
  lemma {:induction false} PlainDecodes(p: string, r: string)
    requires '"' !in p && '\\' !in p
    ensures DecodeBody(p + r) == Prepend(p, DecodeBody(r))
  {
    var d := DecodeBody(r);
    if p == "" {
      assert "" + r == r;
      assert d.Good? ==> "" + d.text == d.text;
    } else {
      PlainDecodes(p[1..], r);
      FirstDecodes(p[0], p[1..] + r);
      assert p + r == [p[0]] + (p[1..] + r);
      assert d.Good? ==> [p[0]] + (p[1..] + d.text) == p + d.text;
    }
  }

  lemma {:induction false} FirstDecodes(c: char, s: string)
    requires c != '"' && c != '\\'
    ensures DecodeBody([c] + s) == Prepend([c], DecodeBody(s))
  {
    assert ([c] + s)[1..] == s;
  }

  // ---- UTF-8 ----

  predicate IsContinuation(c: char) {
    0x80 <= c as int < 0xC0
  }

  /** The code point of one sequence of section 3 of RFC 3629. */
  function FromUtf8(s: string): Option<int> {
    if |s| == 1 && s[0] as int < 0x80 then Some(s[0] as int)
    else if |s| == 2 && 0xC0 <= s[0] as int < 0xE0 && IsContinuation(s[1]) then
      Some((s[0] as int - 0xC0) * 0x40 + (s[1] as int - 0x80))
    else if |s| == 3 && 0xE0 <= s[0] as int < 0xF0 && IsContinuation(s[1]) && IsContinuation(s[2]) then
      Some((s[0] as int - 0xE0) * 0x1000 + (s[1] as int - 0x80) * 0x40 + (s[2] as int - 0x80))
    else if |s| == 4 && 0xF0 <= s[0] as int < 0xF8 && IsContinuation(s[1]) && IsContinuation(s[2]) &&
            IsContinuation(s[3]) then
      Some((s[0] as int - 0xF0) * 0x4_0000 + (s[1] as int - 0x80) * 0x1000 + (s[2] as int - 0x80) * 0x40
           + (s[3] as int - 0x80))
    else None
  }

  /** Every code point becomes the shortest sequence for it. */
  lemma {:induction false} Utf8Decodes(cp: nat)
    requires cp <= 0x10FFFF
    ensures FromUtf8(CodePointToUtf8(cp)) == Some(cp)
    ensures |CodePointToUtf8(cp)| == if cp < 0x80 then 1 else if cp < 0x800 then 2 else if cp < 0x1_0000 then 3 else 4
  {
    var s := CodePointToUtf8(cp);
    var a, b, c := cp / 0x40, cp / 0x1000, cp / 0x4_0000;
    assert cp == 0x40 * a + cp % 0x40 && a == 0x40 * b + a % 0x40 && b == 0x40 * c + b % 0x40;
    assert b == a / 0x40 && c == b / 0x40;
    if cp <= 0x7F {
    } else if cp <= 0x7FF {
      assert |s| == 2 && s[0] as int == 0xC0 + a && s[1] as int == 0x80 + cp % 0x40;
    } else if cp <= 0xFFFF {
      assert |s| == 3 && s[0] as int == 0xE0 + b && s[1] as int == 0x80 + a % 0x40 && s[2] as int == 0x80 + cp % 0x40;
    } else {
      assert |s| == 4 && s[0] as int == 0xF0 + c && s[1] as int == 0x80 + b % 0x40;
      assert s[2] as int == 0x80 + a % 0x40 && s[3] as int == 0x80 + cp % 0x40;
    }
  }

  // ---- numbers ----

  predicate AllDigits(s: string) {
    forall i :: 0 <= i < |s| ==> '0' <= s[i] <= '9'
  }

  /** What digits amount to, in any number and with leading zeros. */
  function NumberOf(s: string): nat
    requires AllDigits(s)
  {
    if s == "" then 0 else 10 * NumberOf(s[..|s| - 1]) + (s[|s| - 1] as int - '0' as int)
  }

  /** The digit loop keeps a number if all but its last digit is below the threshold. */
  lemma {:induction false} DigitsAccumulate(s: string, threshold: nat)
    requires AllDigits(s) && threshold > 0
    ensures Accumulate(s, 0, threshold) == if NumberOf(s) / 10 < threshold then Whole(NumberOf(s)) else Overflow
  {
    if s != "" {
      var n := |s| - 1;
      DigitsAccumulate(s[..n], threshold);
      AccumulateLast(s[..n], s[n], 0, threshold);
      assert s == s[..n] + [s[n]];
    }
  }

  lemma {:induction false} AccumulateLast(s: string, c: char, value: nat, threshold: nat)
    requires '0' <= c <= '9'
    ensures Accumulate(s + [c], value, threshold) ==
            match Accumulate(s, value, threshold)
            case Whole(n) => if n >= threshold then Overflow else Whole(n * 10 + (c as int - '0' as int))
            case other => other
  {
    if s == "" {
      assert (s + [c])[1..] == "";
    } else {
      assert (s + [c])[1..] == s[1..] + [c];
      if IsDigit(s[0]) && value < threshold {
        AccumulateLast(s[1..], c, value * 10 + (s[0] as int - '0' as int), threshold);
      }
    }
  }

  /** A token with a point, an exponent or an inner sign goes to the scan for
      doubles; so does a number of digits that is too large; all others are an Int
      or, above maxInt, a UInt. */
  lemma {:induction false} NumberDecodes(token: string, scan: string -> Option<real>)
    requires token != ""
    ensures (exists i :: 0 <= i < |token| && token[i] in {'.', 'e', 'E', '+'}) ||
            (exists i :: 0 < i < |token| && token[i] == '-') ==>
              DecodeNumber(token, scan) == if scan(token).None? then None else Some(Real(scan(token).value))
    ensures AllDigits(token) ==>
              var n := NumberOf(token);
              DecodeNumber(token, scan) ==
              if n > 4294967289 then (if scan(token).None? then None else Some(Real(scan(token).value)))
              else if n <= MAX_INT then Some(Int(n)) else Some(UInt(n))
    ensures token[0] == '-' && AllDigits(token[1..]) ==>
              var n: int := NumberOf(token[1..]);
              DecodeNumber(token, scan) ==
              if n > 2147483639 then (if scan(token).None? then None else Some(Real(scan(token).value)))
              else Some(Int(0 - n))
  {
    if AllDigits(token) {
      DigitsAccumulate(token, POSITIVE_THRESHOLD);
      assert token[0] != '-' && !HasDoubleChar(token);
    }
    if token[0] == '-' && AllDigits(token[1..]) {
      DigitsAccumulate(token[1..], NEGATIVE_THRESHOLD);
      assert forall i :: 0 < i < |token| ==> token[i] == token[1..][i - 1];
      assert !HasDoubleChar(token);
    }
  }
}

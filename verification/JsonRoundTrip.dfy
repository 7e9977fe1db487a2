/** Parsing undoes printing: any text that spells the tokens of a tree parses
    to that tree. */
module JsonRoundTrip {
  import opened JsonLexer
  import opened JsonDecoder
  import opened JsonParser
  import opened JsonTokens
  import opened JsonValue
  import Decimal

  // ---- numbers ----

  /** Integers the digit loop keeps; the others become doubles. */
  predicate KeptInteger(n: int) {
    -2147483639 <= n <= 4294967289
  }

  /** What an integer comes back as. */
  function RereadInteger(n: int, scan: string -> Option<real>): Value
    requires scan(IntText(n)).Some?
  {
    if !KeptInteger(n) then Real(scan(IntText(n)).value)
    else if n <= MAX_INT then Int(n)
    else UInt(n)
  }

  lemma {:induction false} AccumulateSnoc(s: string, c: char, value: nat, threshold: nat)
    requires IsDigit(c)
    ensures Accumulate(s + [c], value, threshold) ==
            match Accumulate(s, value, threshold)
            case Whole(n) => if n >= threshold then Overflow else Whole(n * 10 + (c as int - '0' as int))
            case other => other
  {
    if s == "" {
      assert (s + [c])[1..] == "";
    } else {
      assert (s + [c])[1..] == s[1..] + [c];
      if IsDigit(s[0]) && value < threshold {
        AccumulateSnoc(s[1..], c, value * 10 + (s[0] as int - '0' as int), threshold);
      }
    }
  }

  lemma {:induction false} AccumulateDigits(n: nat, threshold: nat)
    requires threshold > 0
    ensures Accumulate(DigitText(Decimal.Digits(n)), 0, threshold) ==
            if n / 10 < threshold then Whole(n) else Overflow
  {
    var c := (n % 10 + '0' as int) as char;
    if n < 10 {
      assert DigitText(Decimal.Digits(n)) == "" + [c];
      AccumulateSnoc("", c, 0, threshold);
    } else {
      var d := DigitText(Decimal.Digits(n / 10));
      assert DigitText(Decimal.Digits(n)) == d + [c];
      AccumulateDigits(n / 10, threshold);
      AccumulateSnoc(d, c, 0, threshold);
    }
  }

  /** Exactly the integers in -2147483639..4294967289 survive as integers. */
  lemma {:induction false} IntegerRoundTrip(n: int, scan: string -> Option<real>)
    requires scan(IntText(n)).Some?
    ensures DecodeNumber(IntText(n), scan) == Some(RereadInteger(n, scan))
  {
    var t := IntText(n);
    assert !HasDoubleChar(t) && (t[0] == '-' <==> n < 0);
    if n < 0 {
      assert t[1..] == DigitText(Decimal.Digits(-n));
      AccumulateDigits(-n, NEGATIVE_THRESHOLD);
    } else {
      AccumulateDigits(n, POSITIVE_THRESHOLD);
    }
  }

  lemma {:induction false} ScanNumberStops(d: string, r: string)
    requires forall i :: 0 <= i < |d| ==> IsNumberChar(d[i])
    requires r == "" || !IsNumberChar(r[0])
    ensures ScanNumber(d + r) == r
  {
    if d == "" {
      assert d + r == r;
    } else {
      assert (d + r)[1..] == d[1..] + r;
      ScanNumberStops(d[1..], r);
    }
  }

  // ---- strings ----

  lemma {:induction false} PlainScans(p: string, r: string)
    requires forall i :: 0 <= i < |p| ==> p[i] != '"' && p[i] != '\\'
    ensures ScanString(p + r) == ScanString(r)
  {
    if p == "" {
      assert p + r == r;
    } else {
      assert (p + r)[1..] == p[1..] + r;
      PlainScans(p[1..], r);
    }
  }

  lemma {:induction false} EscapeCharScans(c: char, r: string)
    ensures ScanString(EscapeChar(c) + r) == ScanString(r)
  {
    var e := EscapeChar(c);
    if |e| == 1 {
      assert (e + r)[1..] == r;
    } else {
      assert (e + r)[2..] == e[2..] + r;
      PlainScans(e[2..], r);
    }
  }

  lemma {:induction false} EscapeScans(s: string, r: string)
    ensures ScanString(Escape(s) + "\"" + r) == Scan(true, r)
  {
    if s == "" {
      assert (Escape(s) + "\"" + r)[1..] == r;
    } else {
      EscapeScans(s[1..], r);
      EscapeCharScans(s[0], Escape(s[1..]) + "\"" + r);
      assert Escape(s) + "\"" + r == EscapeChar(s[0]) + (Escape(s[1..]) + "\"" + r);
    }
  }

  lemma {:induction false} EscapeCharDecodes(c: char, r: string)
    requires c != '\0'
    ensures DecodeBody(EscapeChar(c) + r) == Prepend([c], DecodeBody(r))
  {
    var e := EscapeChar(c);
    if |e| == 1 {
      assert (e + r)[1..] == r;
    } else if |e| == 2 {
      assert (e + r)[2..] == r;
    } else {
      assert (e + r)[2..] == e[2..] + r;
      ControlDecodes(c, r);
      assert e[2..] == "00" + [UpperHex(c as int / 16), UpperHex(c as int % 16)];
    }
  }

  lemma {:induction false} ControlDecodes(c: char, r: string)
    requires IsControl(c)
    ensures DecodeCodePoint("00" + [UpperHex(c as int / 16), UpperHex(c as int % 16)] + r)
            == CodePoint(c as int, r)
  {
    var h, l := c as int / 16, c as int % 16;
    var t := "00" + [UpperHex(h), UpperHex(l)] + r;
    assert t[1..][1..] == t[2..] && t[2..][1..] == t[3..] && t[3..][1..] == r;
    assert HexDigit(UpperHex(h)) == Some(h) && HexDigit(UpperHex(l)) == Some(l);
    calc {
      HexDigits(t, 4, 0);
      HexDigits(t[1..], 3, 0);
      HexDigits(t[2..], 2, 0);
      HexDigits(t[3..], 1, h);
      HexDigits(r, 0, h * 16 + l);
    }
  }

  /** Four hexadecimal digits, in either case, and their number. */
  predicate IsHexFour(d: string) {
    |d| == 4 && HexDigit(d[0]).Some? && HexDigit(d[1]).Some? && HexDigit(d[2]).Some? && HexDigit(d[3]).Some?
  }

  function HexFour(d: string): (n: nat)
    requires IsHexFour(d)
    ensures n <= 0xFFFF
  {
    ((HexDigit(d[0]).value * 16 + HexDigit(d[1]).value) * 16 + HexDigit(d[2]).value) * 16 + HexDigit(d[3]).value
  }

  /** Every number up to 0xFFFF has four digits. */
  lemma {:induction false} FourDigitsOf(n: nat) returns (d: string)
    requires n <= 0xFFFF
    ensures IsHexFour(d) && HexFour(d) == n
  {
    var a, b, c := n / 0x1000, n / 0x100 % 16, n / 16 % 16;
    assert n / 0x100 / 16 == a && n / 16 / 16 == n / 0x100;
    d := [UpperHex(a), UpperHex(b), UpperHex(c), UpperHex(n % 16)];
    UpperHexDecodes(a);
    UpperHexDecodes(b);
    UpperHexDecodes(c);
    UpperHexDecodes(n % 16);
  }

  lemma {:induction false} UpperHexDecodes(d: nat)
    requires d < 16
    ensures HexDigit(UpperHex(d)) == Some(d)
  {
  }

  /** Four characters decode exactly when all are digits. */
  lemma {:induction false} FourDigitsDecode(d: string, r: string)
    requires |d| == 4
    ensures DecodeEscapeSequence(d + r) ==
            if IsHexFour(d) then CodePoint(HexFour(d), r) else BadCodePoint(HexDigitExpected)
  {
    HexDigitTaken(d, r, 0, 0);
    if HexDigit(d[0]).Some? {
      var v1 := HexDigit(d[0]).value;
      HexDigitTaken(d, r, 1, v1);
      if HexDigit(d[1]).Some? {
        var v2 := v1 * 16 + HexDigit(d[1]).value;
        HexDigitTaken(d, r, 2, v2);
        if HexDigit(d[2]).Some? {
          HexDigitTaken(d, r, 3, v2 * 16 + HexDigit(d[2]).value);
        }
      }
    }
    assert d[0..] + r == d + r && d[4..] + r == r;
  }

  lemma {:induction false} HexDigitTaken(d: string, r: string, i: nat, unicode: nat)
    requires i < |d| == 4
    ensures HexDigits(d[i..] + r, 4 - i, unicode) ==
            match HexDigit(d[i])
            case None => BadCodePoint(HexDigitExpected)
            case Some(v) => HexDigits(d[i + 1..] + r, 3 - i, unicode * 16 + v)
  {
    assert (d[i..] + r)[0] == d[i] && (d[i..] + r)[1..] == d[i + 1..] + r;
  }

  /** Any escape is taken for the second half of a pair; only its low ten bits
      count. */
  lemma {:induction false} SurrogatesJoin(high: string, low: string, r: string)
    requires IsHexFour(high) && IsHexFour(low) && 0xD800 <= HexFour(high) <= 0xDBFF
    ensures DecodeCodePoint(high + ("\\u" + (low + r)))
            == CodePoint(0x10000 + (HexFour(high) - 0xD800) * 0x400 + HexFour(low) % 0x400, r)
  {
    var second := low + r;
    var rest := "\\u" + second;
    FourDigitsDecode(high, rest);
    FourDigitsDecode(low, r);
    assert rest[2..] == second;
  }

  /** So every code point that needs a pair comes back from its own. */
  lemma {:induction false} SurrogatePairComesBack(cp: nat, high: string, low: string, r: string)
    requires 0x10000 <= cp <= 0x10FFFF && IsHexFour(high) && IsHexFour(low)
    requires HexFour(high) == 0xD800 + (cp - 0x10000) / 0x400 && HexFour(low) == 0xDC00 + (cp - 0x10000) % 0x400
    ensures DecodeCodePoint(high + ("\\u" + (low + r))) == CodePoint(cp, r)
  {
    HalvesJoin(cp, HexFour(high), HexFour(low));
    SurrogatesJoin(high, low, r);
  }

  lemma {:induction false} HalvesJoin(cp: nat, high: nat, low: nat)
    requires 0x10000 <= cp <= 0x10FFFF
    requires high == 0xD800 + (cp - 0x10000) / 0x400 && low == 0xDC00 + (cp - 0x10000) % 0x400
    ensures 0xD800 <= high <= 0xDBFF && 0x10000 + (high - 0xD800) * 0x400 + low % 0x400 == cp
  {
    assert low % 0x400 == (cp - 0x10000) % 0x400;
  }

  lemma {:induction false} StringRoundTrip(s: string)
    requires NulFree(s)
    ensures DecodeBody(Escape(s)) == Good(s)
  {
    if s != "" {
      StringRoundTrip(s[1..]);
      EscapeCharDecodes(s[0], Escape(s[1..]));
      assert [s[0]] + s[1..] == s;
    }
  }

  // ---- tokens ----

  function PunctuationKind(c: char): Kind
  {
    match c
    case '{' => ObjectBegin
    case '}' => ObjectEnd
    case '[' => ArrayBegin
    case ']' => ArrayEnd
    case ',' => ArraySeparator
    case ':' => MemberSeparator
    case _ => ErrorToken
  }

  /** A number token would end before these tokens. */
  predicate EndsNumber(more: seq<string>) {
    more == [] || (more[0] != "" && !IsNumberChar(more[0][0]))
  }

  lemma {:induction false} SpacedHead(s: string, tok: string, more: seq<string>)
    requires Spaced(s, [tok] + more)
    ensures tok <= SkipSpaces(s) && Spaced(SkipSpaces(s)[|tok|..], more)
  {
    assert ([tok] + more)[1..] == more;
  }

  lemma {:induction false} ReadPunctuation(s: string, c: char, more: seq<string>)
    requires PunctuationKind(c) != ErrorToken && Spaced(s, [[c]] + more)
    ensures var l := ReadToken(s);
            l.token.kind == PunctuationKind(c) && Spaced(l.rest, more) && SkipComments(s) == l
  {
    SpacedHead(s, [c], more);
  }

  lemma {:induction false} ReadWord(s: string, v: Value, more: seq<string>)
    requires v.Null? || v.Bool?
    requires Spaced(s, Tokens(v) + more)
    ensures var l := ReadToken(s);
            && l.token.kind == (if v.Null? then NullToken else if v.b then TrueToken else FalseToken)
            && Spaced(l.rest, more) && SkipComments(s) == l
  {
    var word := Tokens(v)[0];
    SpacedHead(s, word, more);
    var t := SkipSpaces(s);
    assert t[0] == word[0] && word[1..] <= t[1..] && t[1..][|word| - 1..] == t[|word|..];
    assert word[1..] == if v.Null? then "ull" else if v.b then "rue" else "alse";
  }

  lemma {:induction false} ReadNumber(s: string, n: int, more: seq<string>)
    requires Spaced(s, [IntText(n)] + more) && EndsNumber(more)
    ensures var l := ReadToken(s);
            && l.token.kind == NumberToken && l.token.text == IntText(n)
            && Spaced(l.rest, more) && SkipComments(s) == l
  {
    var d := IntText(n);
    SpacedHead(s, d, more);
    var t := SkipSpaces(s);
    var r := t[|d|..];
    assert r == "" || !IsNumberChar(r[0]);
    assert t[1..] == d[1..] + r;
    ScanNumberStops(d[1..], r);
    assert t[0] == d[0] && (IsDigit(d[0]) || d[0] == '-');
    ReadClassified(s, t, NumberToken, r);
    assert t[..|d|] == d;
  }

  lemma {:induction false} ReadClassified(s: string, t: string, kind: Kind, rest: string)
    requires t == SkipSpaces(s) != "" && Classify(t[0], t[1..]) == (kind, rest) && kind != CommentToken
    ensures ReadToken(s) == Lexed(Token(kind, t[..|t| - |rest|], |t|), rest) && SkipComments(s) == ReadToken(s)
  {
  }

  lemma {:induction false} ReadQuoted(s: string, text: string, more: seq<string>)
    requires Spaced(s, [Quote(text)] + more)
    ensures var l := ReadToken(s);
            && l.token.kind == StringToken && l.token.text == Quote(text)
            && Spaced(l.rest, more) && SkipComments(s) == l
  {
    var q := Quote(text);
    SpacedHead(s, q, more);
    var t := SkipSpaces(s);
    QuotedText(t, text);
    ReadClassified(s, t, StringToken, t[|q|..]);
  }

  lemma {:induction false} QuotedText(t: string, text: string)
    requires Quote(text) <= t
    ensures var q := Quote(text);
            t != "" && t[0] == '"' && t[..|q|] == q && ScanString(t[1..]) == Scan(true, t[|q|..])
  {
    var q := Quote(text);
    EscapeScans(text, t[|q|..]);
    assert q[1..] == Escape(text) + "\"";
    assert t == q + t[|q|..];
    assert t[1..] == q[1..] + t[|q|..];
  }

  lemma {:induction false} DecodeQuoted(text: string)
    requires NulFree(text)
    ensures DecodeString(Quote(text)) == Good(text) && CString(text) == text
  {
    assert Quote(text)[1..|Quote(text)| - 1] == Escape(text);
    StringRoundTrip(text);
    CStringOfNulFree(text);
  }

  // ---- trees ----

  /** sscanf reads every integer as some double. */
  ghost predicate ScansIntegers(scan: string -> Option<real>) {
    forall n: int :: scan(IntText(n)).Some?
  }

  /** The tree that comes back: every integer re-read, all else the same. */
  ghost function Reread(v: Value, scan: string -> Option<real>): Value
    requires RealFree(v) && ScansIntegers(scan)
    decreases v
  {
    match v
    case Int(i) => RereadInteger(i, scan)
    case UInt(u) => RereadInteger(u, scan)
    case Array(es) => Array(RereadElements(es, scan))
    case Object(ms) => Object(RereadMembers(ms, scan))
    case _ => v
  }

  ghost function RereadElements(es: seq<Value>, scan: string -> Option<real>): seq<Value>
    requires (forall i :: 0 <= i < |es| ==> RealFree(es[i])) && ScansIntegers(scan)
    decreases es
  {
    if es == [] then [] else [Reread(es[0], scan)] + RereadElements(es[1..], scan)
  }

  ghost function RereadMembers(ms: seq<Member>, scan: string -> Option<real>): seq<Member>
    requires (forall i :: 0 <= i < |ms| ==> RealFree(ms[i].value)) && ScansIntegers(scan)
    decreases ms
  {
    if ms == [] then []
    else [Member(ms[0].name, Reread(ms[0].value, scan))] + RereadMembers(ms[1..], scan)
  }

  /** A successful read of v that leaves the tokens `more`. */
  predicate Reads(r: Outcome, v: Value, more: seq<string>) {
    r.ok && r.value == v && r.errors == [] && Spaced(r.rest, more)
  }

  lemma {:induction false} ReadsTree(cfg: Config, s: string, v: Value, current: Value, more: seq<string>)
    requires WellFormed(v) && RealFree(v) && ScansIntegers(cfg.scan)
    requires Spaced(s, Tokens(v) + more) && EndsNumber(more)
    ensures Reads(ReadValue(cfg, s, current), Reread(v, cfg.scan), more)
    decreases v, 1
  {
    match v
    case Array(es) => ReadsArray(cfg, s, es, current, more);
    case Object(ms) => ReadsObject(cfg, s, ms, current, more);
    case _ => ReadsScalar(cfg, s, v, current, more);
  }

  /** A printed integer. */
  lemma {:induction false} ReadsInteger(cfg: Config, s: string, n: int, current: Value, more: seq<string>)
    requires ScansIntegers(cfg.scan) && Spaced(s, [IntText(n)] + more) && EndsNumber(more)
    ensures Reads(ReadValue(cfg, s, current), RereadInteger(n, cfg.scan), more)
  {
    ReadNumber(s, n, more);
    assert cfg.scan(IntText(n)).Some?;
    IntegerRoundTrip(n, cfg.scan);
  }

  /** A quoted string. */
  lemma {:induction false} ReadsString(cfg: Config, s: string, text: string, current: Value, more: seq<string>)
    requires NulFree(text) && Spaced(s, [Quote(text)] + more)
    ensures Reads(ReadValue(cfg, s, current), String(text), more)
  {
    ReadQuoted(s, text, more);
    DecodeQuoted(text);
  }

  lemma {:induction false} ReadsScalar(cfg: Config, s: string, v: Value, current: Value, more: seq<string>)
    requires WellFormed(v) && RealFree(v) && ScansIntegers(cfg.scan) && !v.Array? && !v.Object?
    requires Spaced(s, Tokens(v) + more) && EndsNumber(more)
    ensures Reads(ReadValue(cfg, s, current), Reread(v, cfg.scan), more)
  {
    if v.Int? {
      ReadsInteger(cfg, s, v.i, current, more);
    } else if v.UInt? {
      ReadsInteger(cfg, s, v.u, current, more);
    } else if v.String? {
      ReadsString(cfg, s, v.s, current, more);
    } else {
      ReadWord(s, v, more);
    }
  }

  // arrays

  lemma {:induction false} ArrayBegins(cfg: Config, s: string, current: Value, after: seq<string>)
    requires Spaced(s, [['[']] + after) && after != [] && after[0] != ""
    ensures var t := ReadToken(s).rest;
            && Spaced(t, after)
            && ReadValue(cfg, s, current) ==
                 if after[0][0] == ']' then Outcome(true, ReadToken(t).rest, Array([]), [])
                 else ReadElements(cfg, t, [])
  {
    ReadPunctuation(s, '[', after);
    var t := ReadToken(s).rest;
    assert after == [after[0]] + after[1..];
    SpacedHead(t, after[0], after[1..]);
  }

  lemma {:induction false} ReadsArray(cfg: Config, s: string, es: seq<Value>, current: Value, more: seq<string>)
    requires ScansIntegers(cfg.scan)
    requires forall i :: 0 <= i < |es| ==> WellFormed(es[i]) && RealFree(es[i])
    requires Spaced(s, Tokens(Array(es)) + more)
    ensures Reads(ReadValue(cfg, s, current), Array(RereadElements(es, cfg.scan)), more)
    decreases es, 1
  {
    var after := ElementTokens(es) + ["]"] + more;
    assert Tokens(Array(es)) + more == [['[']] + after;
    ElementsStart(es);
    ArrayBegins(cfg, s, current, after);
    var t := ReadToken(s).rest;
    if es == [] {
      assert after == [[']']] + more;
      ReadPunctuation(t, ']', more);
    } else {
      ReadsElements(cfg, t, es, [], more);
      assert [] + RereadElements(es, cfg.scan) == RereadElements(es, cfg.scan);
    }
  }

  /** No element starts with `]`. */
  lemma {:induction false} ElementsStart(es: seq<Value>)
    requires forall i :: 0 <= i < |es| ==> RealFree(es[i])
    ensures es != [] ==>
              ElementTokens(es) != [] && ElementTokens(es)[0] != "" && ElementTokens(es)[0][0] != ']'
  {
    if es != [] {
      assert RealFree(es[0]);
      assert Tokens(es[0]) != [] && Tokens(es[0])[0] != "" && Tokens(es[0])[0][0] != ']';
    }
  }

  lemma {:induction false} Regroup<T>(a: seq<T>, b: seq<T>, c: seq<T>, d: seq<T>, e: seq<T>)
    ensures a + b + c + d + e == a + (b + (c + d + e))
  {
    assert a + b + c + d + e == a + b + (c + d + e);
  }

  lemma {:induction false} ElementTokensSplit(es: seq<Value>, more: seq<string>)
    requires es != [] && forall i :: 0 <= i < |es| ==> RealFree(es[i])
    ensures ElementTokens(es) + ["]"] + more ==
            Tokens(es[0]) + if |es| == 1 then [[']']] + more
                            else [[',']] + (ElementTokens(es[1..]) + ["]"] + more)
  {
    if |es| > 1 {
      Regroup(Tokens(es[0]), [[',']], ElementTokens(es[1..]), ["]"], more);
    } else {
      assert Tokens(es[0]) + ["]"] + more == Tokens(es[0]) + ([[']']] + more);
    }
  }

  lemma {:induction false} ElementEnds(cfg: Config, s: string, acc: seq<Value>, v: Outcome, more: seq<string>)
    requires v == ReadValue(cfg, s, Null) && v.ok && Spaced(v.rest, [[']']] + more)
    ensures Reads(ReadElements(cfg, s, acc), Array(acc + [v.value]), more)
  {
    ReadPunctuation(v.rest, ']', more);
  }

  lemma {:induction false} ElementGoesOn(cfg: Config, s: string, acc: seq<Value>, v: Outcome, after: seq<string>)
    requires v == ReadValue(cfg, s, Null) && v.ok && Spaced(v.rest, [[',']] + after)
    ensures Spaced(ReadToken(v.rest).rest, after)
    ensures ReadElements(cfg, s, acc) == ReadElements(cfg, ReadToken(v.rest).rest, acc + [v.value])
  {
    ReadPunctuation(v.rest, ',', after);
    var next := SkipComments(v.rest);
    assert next == ReadToken(v.rest) && next.token.kind != ArrayEnd;
  }

  lemma {:induction false} ReadsElements(cfg: Config, s: string, es: seq<Value>, acc: seq<Value>, more: seq<string>)
    requires es != [] && ScansIntegers(cfg.scan)
    requires forall i :: 0 <= i < |es| ==> WellFormed(es[i]) && RealFree(es[i])
    requires Spaced(s, ElementTokens(es) + ["]"] + more)
    ensures Reads(ReadElements(cfg, s, acc), Array(acc + RereadElements(es, cfg.scan)), more)
    decreases es, 0
  {
    var v := ReadValue(cfg, s, Null);
    ElementTokensSplit(es, more);
    RereadElementsFirst(acc, es, cfg.scan);
    if |es| == 1 {
      ReadsTree(cfg, s, es[0], Null, [[']']] + more);
      ElementEnds(cfg, s, acc, v, more);
    } else {
      var after := ElementTokens(es[1..]) + ["]"] + more;
      ReadsTree(cfg, s, es[0], Null, [[',']] + after);
      ElementGoesOn(cfg, s, acc, v, after);
      ReadsElements(cfg, ReadToken(v.rest).rest, es[1..], acc + [v.value], more);
    }
  }

  lemma {:induction false} RereadElementsFirst(acc: seq<Value>, es: seq<Value>, scan: string -> Option<real>)
    requires es != [] && (forall i :: 0 <= i < |es| ==> RealFree(es[i])) && ScansIntegers(scan)
    ensures acc + RereadElements(es, scan) == acc + [Reread(es[0], scan)] + RereadElements(es[1..], scan)
    ensures |es| == 1 ==> acc + RereadElements(es, scan) == acc + [Reread(es[0], scan)]
  {
  }

  // objects

  lemma {:induction false} ObjectBegins(cfg: Config, s: string, current: Value, after: seq<string>)
    requires Spaced(s, [['{']] + after)
    ensures var t := ReadToken(s).rest;
            Spaced(t, after) && ReadValue(cfg, s, current) == ReadMembers(cfg, t, [], "")
  {
    ReadPunctuation(s, '{', after);
  }

  lemma {:induction false} ReadsObject(cfg: Config, s: string, ms: seq<Member>, current: Value, more: seq<string>)
    requires Printable(ms) && ScansIntegers(cfg.scan)
    requires Spaced(s, Tokens(Object(ms)) + more)
    ensures Reads(ReadValue(cfg, s, current), Object(RereadMembers(ms, cfg.scan)), more)
    decreases ms, 3
  {
    var after := MemberTokens(ms) + ["}"] + more;
    assert Tokens(Object(ms)) + more == [['{']] + after;
    ObjectBegins(cfg, s, current, after);
    var t := ReadToken(s).rest;
    if ms == [] {
      assert after == [['}']] + more;
      ReadPunctuation(t, '}', more);
    } else {
      ReadsMembers(cfg, t, ms, [], "", more);
      assert [] + RereadMembers(ms, cfg.scan) == RereadMembers(ms, cfg.scan);
    }
  }

  predicate Printable(ms: seq<Member>) {
    Sorted(ms) && forall i :: 0 <= i < |ms| ==>
      NulFree(ms[i].name) && WellFormed(ms[i].value) && RealFree(ms[i].value)
  }

  /** All names of acc come before all names of ms. */
  predicate Before(acc: seq<Member>, ms: seq<Member>) {
    forall i, j :: 0 <= i < |acc| && 0 <= j < |ms| ==> Less(acc[i].name, ms[j].name)
  }

  lemma {:induction false} PutNext(acc: seq<Member>, ms: seq<Member>, v: Value)
    requires ms != [] && Printable(ms) && Before(acc, ms)
    ensures var acc' := acc + [Member(ms[0].name, v)];
            Put(acc, ms[0].name, v) == acc' && Before(acc', ms[1..]) && Printable(ms[1..])
  {
    PutLast(acc, ms[0].name, v);
  }

  /** The tokens after the value of the first member. */
  ghost function AfterMember(ms: seq<Member>, more: seq<string>): (r: seq<string>)
    requires ms != [] && forall i :: 0 <= i < |ms| ==> RealFree(ms[i].value)
    ensures EndsNumber(r)
  {
    if |ms| == 1 then [['}']] + more else [[',']] + (MemberTokens(ms[1..]) + ["}"] + more)
  }

  lemma {:induction false} MemberTokensSplit(ms: seq<Member>, more: seq<string>)
    requires ms != [] && forall i :: 0 <= i < |ms| ==> RealFree(ms[i].value)
    ensures MemberTokens(ms) + ["}"] + more ==
            [Quote(ms[0].name)] + ([[':']] + (Tokens(ms[0].value) + AfterMember(ms, more)))
  {
    var q, v := [Quote(ms[0].name)], Tokens(ms[0].value);
    assert [Quote(ms[0].name), ":"] == q + [[':']];
    var rest := if |ms| == 1 then [] else [","] + MemberTokens(ms[1..]);
    assert MemberTokens(ms) == q + [[':']] + v + rest;
    RegroupSix(q, [[':']], v, rest, ["}"], more);
    assert rest + ["}"] + more == AfterMember(ms, more);
  }

  lemma {:induction false} RegroupSix(a: seq<string>, b: seq<string>, c: seq<string>, d: seq<string>, e: seq<string>,
                                   f: seq<string>)
    ensures (a + b + c + d) + e + f == a + (b + (c + (d + e + f)))
  {
  }

  /** The name and the colon of one member. */
  lemma {:induction false} MemberBegins(s: string, name: string, after: seq<string>)
    requires NulFree(name) && Spaced(s, [Quote(name)] + ([[':']] + after))
    ensures var l := SkipComments(s);
            var colon := ReadToken(l.rest);
            && l.token.kind == StringToken && DecodeString(l.token.text) == Good(name) && CString(name) == name
            && colon.token.kind == MemberSeparator && Spaced(colon.rest, after)
  {
    ReadQuoted(s, name, [[':']] + after);
    DecodeQuoted(name);
    ReadPunctuation(ReadToken(s).rest, ':', after);
  }

  /** The member at the start of s is called name and reading its value gives v. */
  ghost predicate ReadsMember(cfg: Config, s: string, acc: seq<Member>, name: string, v: Outcome) {
    var l := SkipComments(s);
    var colon := ReadToken(l.rest);
    && l.token.kind == StringToken && DecodeString(l.token.text) == Good(name) && CString(name) == name
    && colon.token.kind == MemberSeparator && v == ReadValue(cfg, colon.rest, Slot(acc, name))
  }

  lemma {:induction false} MemberEnds(cfg: Config, s: string, acc: seq<Member>, last: string, name: string,
                                      v: Outcome, more: seq<string>)
    requires ReadsMember(cfg, s, acc, name, v)
    requires v.ok && Spaced(v.rest, [['}']] + more)
    ensures Reads(ReadMembers(cfg, s, acc, last), Object(Put(acc, name, v.value)), more)
  {
    ReadPunctuation(v.rest, '}', more);
  }

  lemma {:induction false} MemberGoesOn(cfg: Config, s: string, acc: seq<Member>, last: string, name: string,
                                        v: Outcome, after: seq<string>)
    requires ReadsMember(cfg, s, acc, name, v)
    requires v.ok && Spaced(v.rest, [[',']] + after)
    ensures Spaced(ReadToken(v.rest).rest, after)
    ensures ReadMembers(cfg, s, acc, last) ==
            ReadMembers(cfg, ReadToken(v.rest).rest, Put(acc, name, v.value), name)
  {
    ReadPunctuation(v.rest, ',', after);
    var next := SkipComments(v.rest);
    assert next == ReadToken(v.rest) && next.token.kind == ArraySeparator;
  }

  lemma {:induction false} ReadsMembers(cfg: Config, s: string, ms: seq<Member>, acc: seq<Member>,
                                        last: string, more: seq<string>)
    requires ms != [] && Printable(ms) && Before(acc, ms) && ScansIntegers(cfg.scan)
    requires Spaced(s, MemberTokens(ms) + ["}"] + more)
    ensures Reads(ReadMembers(cfg, s, acc, last), Object(acc + RereadMembers(ms, cfg.scan)), more)
    decreases ms, 2
  {
    var v := ReadsFirstMember(cfg, s, ms, acc, more);
    PutNext(acc, ms, v.value);
    RereadMembersFirst(acc, ms, cfg.scan);
    if |ms| == 1 {
      MemberEnds(cfg, s, acc, last, ms[0].name, v, more);
    } else {
      MemberGoesOn(cfg, s, acc, last, ms[0].name, v, MemberTokens(ms[1..]) + ["}"] + more);
      ReadsMembers(cfg, ReadToken(v.rest).rest, ms[1..], Put(acc, ms[0].name, v.value), ms[0].name, more);
    }
  }

  lemma {:induction false} RereadMembersFirst(acc: seq<Member>, ms: seq<Member>, scan: string -> Option<real>)
    requires ms != [] && (forall i :: 0 <= i < |ms| ==> RealFree(ms[i].value)) && ScansIntegers(scan)
    ensures acc + RereadMembers(ms, scan) ==
            acc + [Member(ms[0].name, Reread(ms[0].value, scan))] + RereadMembers(ms[1..], scan)
    ensures |ms| == 1 ==>
              acc + RereadMembers(ms, scan) == acc + [Member(ms[0].name, Reread(ms[0].value, scan))]
  {
    var m := [Member(ms[0].name, Reread(ms[0].value, scan))];
    assert acc + (m + RereadMembers(ms[1..], scan)) == acc + m + RereadMembers(ms[1..], scan);
    if |ms| == 1 {
      assert RereadMembers(ms[1..], scan) == [];
    }
  }

  lemma {:induction false} ReadsFirstMember(cfg: Config, s: string, ms: seq<Member>, acc: seq<Member>,
                                            more: seq<string>) returns (v: Outcome)
    requires ms != [] && Printable(ms) && ScansIntegers(cfg.scan)
    requires Spaced(s, MemberTokens(ms) + ["}"] + more)
    ensures ReadsMember(cfg, s, acc, ms[0].name, v)
    ensures Reads(v, Reread(ms[0].value, cfg.scan), AfterMember(ms, more))
    decreases ms, 1
  {
    var name, value := ms[0].name, ms[0].value;
    MemberTokensSplit(ms, more);
    MemberBegins(s, name, Tokens(value) + AfterMember(ms, more));
    var colon := ReadToken(SkipComments(s).rest);
    v := ReadValue(cfg, colon.rest, Slot(acc, name));
    ReadsTree(cfg, colon.rest, value, Slot(acc, name), AfterMember(ms, more));
  }

  // ---- the whole document ----

  /** Any spelling of the tokens of a tree parses to the re-read tree; only a
      strict root that is a scalar other than null is turned down. */
  lemma {:induction false} ParsesTree(cfg: Config, text: string, v: Value, root: Value)
    requires WellFormed(v) && RealFree(v) && ScansIntegers(cfg.scan)
    requires Spaced(text, Tokens(v))
    ensures var r := Parse(cfg, text, root);
            && r.value == Reread(v, cfg.scan)
            && (r.ok <==> cfg.strictRoot ==> IsArray(v) || IsObject(v))
            && (r.ok <==> r.errors == [])
  {
    assert Tokens(v) + [] == Tokens(v);
    ReadsTree(cfg, text, v, root, []);
  }

  /** Trees that come back unchanged. */
  predicate Survives(v: Value) {
    match v
    case Int(i) => KeptInteger(i) && i <= MAX_INT
    case UInt(u) => KeptInteger(u) && u > MAX_INT
    case Array(es) => forall i :: 0 <= i < |es| ==> Survives(es[i])
    case Object(ms) => forall i :: 0 <= i < |ms| ==> Survives(ms[i].value)
    case _ => true
  }

  lemma {:induction false} RereadIsIdentity(v: Value, scan: string -> Option<real>)
    requires RealFree(v) && ScansIntegers(scan)
    ensures Reread(v, scan) == v <==> Survives(v)
    decreases v
  {
    match v
    case Array(es) => RereadElementsIdentity(es, scan);
    case Object(ms) => RereadMembersIdentity(ms, scan);
    case _ =>
  }

  lemma {:induction false} RereadElementsIdentity(es: seq<Value>, scan: string -> Option<real>)
    requires (forall i :: 0 <= i < |es| ==> RealFree(es[i])) && ScansIntegers(scan)
    ensures RereadElements(es, scan) == es <==> forall i :: 0 <= i < |es| ==> Survives(es[i])
    decreases es
  {
    if es != [] {
      var h, t := Reread(es[0], scan), RereadElements(es[1..], scan);
      RereadIsIdentity(es[0], scan);
      RereadElementsIdentity(es[1..], scan);
      assert es == [es[0]] + es[1..];
      assert [h] + t == es ==> ([h] + t)[0] == es[0] && ([h] + t)[1..] == es[1..];
      assert forall i :: 0 <= i < |es| - 1 ==> es[1..][i] == es[i + 1];
      if forall i :: 0 <= i < |es| - 1 ==> Survives(es[1..][i]) {
        assert forall i :: 1 <= i < |es| ==> es[i] == es[1..][i - 1];
      }
    }
  }

  lemma {:induction false} RereadMembersIdentity(ms: seq<Member>, scan: string -> Option<real>)
    requires (forall i :: 0 <= i < |ms| ==> RealFree(ms[i].value)) && ScansIntegers(scan)
    ensures RereadMembers(ms, scan) == ms <==> forall i :: 0 <= i < |ms| ==> Survives(ms[i].value)
    decreases ms
  {
    if ms != [] {
      var h, t := Member(ms[0].name, Reread(ms[0].value, scan)), RereadMembers(ms[1..], scan);
      RereadIsIdentity(ms[0].value, scan);
      RereadMembersIdentity(ms[1..], scan);
      assert ms == [ms[0]] + ms[1..];
      assert [h] + t == ms ==> ([h] + t)[0] == ms[0] && ([h] + t)[1..] == ms[1..];
      assert forall i :: 0 <= i < |ms| - 1 ==> ms[1..][i] == ms[i + 1];
      if forall i :: 0 <= i < |ms| - 1 ==> Survives(ms[1..][i].value) {
        assert forall i :: 1 <= i < |ms| ==> ms[i] == ms[1..][i - 1];
      }
    }
  }

  // ---- what was parsed survives ----

  lemma {:induction false} NumberSurvives(token: string, scan: string -> Option<real>)
    requires token != ""
    ensures var r := DecodeNumber(token, scan); r.Some? ==> Survives(r.value)
  {
    AccumulateBound(token, 0, POSITIVE_THRESHOLD);
    AccumulateBound(token[1..], 0, NEGATIVE_THRESHOLD);
  }

  predicate MembersSurvive(ms: seq<Member>) {
    forall i :: 0 <= i < |ms| ==> Survives(ms[i].value)
  }

  lemma {:induction false} SlotSurvives(ms: seq<Member>, name: string)
    requires MembersSurvive(ms)
    ensures Survives(Slot(ms, name))
  {
    if ms != [] && ms[0].name != name {
      SlotSurvives(ms[1..], name);
    }
  }

  lemma {:induction false} PutSurvives(ms: seq<Member>, name: string, v: Value)
    requires MembersSurvive(ms) && Survives(v)
    ensures MembersSurvive(Put(ms, name, v))
  {
    if ms != [] && !Less(name, ms[0].name) && ms[0].name != name {
      PutSurvives(ms[1..], name, v);
    }
  }

  /** Whatever the text, the integers of the tree are ones that come back. */
  lemma {:induction false} ParsedSurvives(cfg: Config, s: string, current: Value)
    requires Survives(current)
    ensures Survives(ReadValue(cfg, s, current).value)
    decreases |s|, 1
  {
    var l := FirstToken(cfg, s);
    if l.token.kind == ObjectBegin {
      MembersStaySurviving(cfg, l.rest, [], "");
    } else if l.token.kind == ArrayBegin {
      ElementsStaySurviving(cfg, l.rest, []);
    } else if l.token.kind == NumberToken {
      NumberSurvives(l.token.text, cfg.scan);
    }
  }

  lemma {:induction false} MembersStaySurviving(cfg: Config, s: string, ms: seq<Member>, last: string)
    requires MembersSurvive(ms)
    ensures Survives(ReadMembers(cfg, s, ms, last).value)
    decreases |s|, 0
  {
    var l := SkipComments(s);
    if l.token.kind == StringToken && DecodeString(l.token.text).Good? {
      var name := DecodeString(l.token.text).text;
      var key := CString(name);
      var colon := ReadToken(l.rest);
      if colon.token.kind == MemberSeparator {
        SlotSurvives(ms, key);
        ParsedSurvives(cfg, colon.rest, Slot(ms, key));
        var v := ReadValue(cfg, colon.rest, Slot(ms, key));
        PutSurvives(ms, key, v.value);
        var comma := ReadToken(v.rest);
        if v.ok && comma.token.kind in {ObjectEnd, ArraySeparator, CommentToken} {
          var next := if comma.token.kind == CommentToken then SkipComments(comma.rest) else comma;
          MembersStaySurviving(cfg, next.rest, Put(ms, key, v.value), name);
        }
      }
    }
  }

  lemma {:induction false} ElementsStaySurviving(cfg: Config, s: string, es: seq<Value>)
    requires forall i :: 0 <= i < |es| ==> Survives(es[i])
    ensures Survives(ReadElements(cfg, s, es).value)
    decreases |s|, 2
  {
    ParsedSurvives(cfg, s, Null);
    var v := ReadValue(cfg, s, Null);
    if v.ok {
      ElementsStaySurviving(cfg, SkipComments(v.rest).rest, es + [v.value]);
    }
  }
}

/** The writers of clientsdk/json/json_writer.cpp. */
module JsonWriter {
  import opened JsonTokens
  import opened JsonValue
  import Decimal

  // ---- scalars ----

  function Pow10(k: nat): nat {
    if k == 0 then 1 else 10 * Pow10(k - 1)
  }

  lemma {:induction false} DigitsLength(n: nat, k: nat)
    requires k > 0 && n < Pow10(k)
    ensures |Decimal.Digits(n)| <= k
  {
    if n >= 10 {
      DigitsLength(n / 10, k - 1);
    }
  }

  /** The digits, filled into a 32-byte buffer from its end. */
  method UintToString(value: nat, buffer: array<char>) returns (current: nat)
    requires value <= MAX_UINT && buffer.Length == 32
    modifies buffer
    ensures 20 < current < 32 && buffer[current..31] == DigitText(Decimal.Digits(value))
  {
    assert value < Pow10(10);
    DigitsLength(value, 10);
    ghost var text := DigitText(Decimal.Digits(value));
    current := 31;
    buffer[current] := '\0';
    var left: nat := value;
    while true
      invariant |Decimal.Digits(left)| <= 10 && 31 - current <= 10 - |Decimal.Digits(left)|
      invariant DigitText(Decimal.Digits(left)) + buffer[current..31] == text
      decreases left
    {
      ghost var before := DigitText(Decimal.Digits(left)) + buffer[current..31];
      ghost var tail := buffer[current..31];
      var c := (left % 10 + '0' as int) as char;
      current := current - 1;
      buffer[current] := c;
      assert buffer[current..31] == [c] + tail;
      if left < 10 {
        assert before == [c] + tail;
        return;
      }
      assert DigitText(Decimal.Digits(left)) == DigitText(Decimal.Digits(left / 10)) + [c];
      left := left / 10;
    }
  }

  /** UInt(-value) of a negative Int. On a two's complement machine the negation
      leaves INT_MIN as it is, and the conversion makes 2^31 of it. */
  function Magnitude(value: int): (r: nat)
    requires MIN_INT <= value < 0
    ensures r == -value
  {
    var negated := if value == MIN_INT then MIN_INT else -value;
    negated % 0x1_0000_0000
  }

  /** valueToString of an Int or a UInt. */
  method ValueToString(value: int) returns (r: string)
    requires MIN_INT <= value <= MAX_UINT
    ensures r == IntText(value)
  {
    var buffer := new char[32];
    var isNegative := value < 0;
    var current := UintToString(if isNegative then Magnitude(value) else value, buffer);
    if isNegative {
      ghost var digits := buffer[current..31];
      current := current - 1;
      buffer[current] := '-';
      assert buffer[current..31] == "-" + digits;
    }
    return buffer[current..31];
  }

  predicate IsEscaped(c: char) {
    c == '"' || c == '\\' || c == 8 as char || c == 12 as char || c == '\n' || c == '\r' || c == '\t' || IsControl(c)
  }

  lemma {:induction false} PlainEscapesToItself(s: string)
    requires forall i :: 0 <= i < |s| ==> !IsEscaped(s[i])
    ensures Escape(s) == s
  {
    if s != "" {
      PlainEscapesToItself(s[1..]);
    }
  }

  /** Seven characters become two, other control characters six, all others stay. */
  lemma {:induction false} EscapeIsShort(c: char)
    ensures EscapeChar(c) == [c] <==> !IsEscaped(c)
    ensures |EscapeChar(c)| == if !IsEscaped(c) then 1
                               else if c in ['"', '\\', 8 as char, 12 as char, '\n', '\r', '\t'] then 2 else 6
    ensures IsEscaped(c) ==> EscapeChar(c)[0] == '\\'
    ensures IsEscaped(c) <==> c == '"' || c == '\\' || 1 <= c as int < 32
  {
  }

  lemma {:induction false} EscapeAppend(a: string, b: string)
    ensures Escape(a + b) == Escape(a) + Escape(b)
  {
    if a == "" {
      assert a + b == b;
    } else {
      assert (a + b)[1..] == a[1..] + b;
      EscapeAppend(a[1..], b);
      assert EscapeChar(a[0]) + (Escape(a[1..]) + Escape(b)) == Escape(a) + Escape(b);
    }
  }

  method ValueToQuotedString(value: string) returns (r: string)
    ensures r == Quote(value)
  {
    if forall i :: 0 <= i < |value| ==> !IsEscaped(value[i]) {
      PlainEscapesToItself(value);
      return "\"" + value + "\"";
    }
    r := "\"";
    for i := 0 to |value|
      invariant r == "\"" + Escape(value[..i])
    {
      EscapeAppend(value[..i], [value[i]]);
      assert value[..i] + [value[i]] == value[..i + 1];
      assert Escape([value[i]]) == EscapeChar(value[i]);
      r := r + EscapeChar(value[i]);
    }
    assert value[..|value|] == value;
    r := r + "\"";
  }

  /** What a writer can print without sprintf. */
  predicate Printable(v: Value) {
    match v
    case Int(i) => MIN_INT <= i <= MAX_INT
    case UInt(u) => 0 <= u <= MAX_UINT
    case Real(_) => false
    case Array(es) => forall i :: 0 <= i < |es| ==> Printable(es[i])
    case Object(ms) => forall i :: 0 <= i < |ms| ==> Printable(ms[i].value)
    case _ => true
  }

  lemma {:induction false} PrintableIsRealFree(v: Value)
    requires Printable(v)
    ensures RealFree(v)
    decreases v
  {
    match v
    case Array(es) =>
      forall i | 0 <= i < |es| ensures RealFree(es[i]) { PrintableIsRealFree(es[i]); }
    case Object(ms) =>
      forall i | 0 <= i < |ms| ensures RealFree(ms[i].value) { PrintableIsRealFree(ms[i].value); }
    case _ =>
  }

  /** The text of a value that is neither a non-empty array nor a non-empty object. */
  method ScalarToString(v: Value) returns (r: string)
    requires Printable(v) && RealFree(v) && !v.Array? && !v.Object?
    ensures [r] == Tokens(v)
  {
    match v {
      case Null => r := "null";
      case Bool(b) => r := if b then "true" else "false";
      case Int(i) => r := ValueToString(i);
      case UInt(u) => r := ValueToString(u);
      case String(s) => r := ValueToQuotedString(s);
    }
  }

  // ---- FastWriter ----

  function FastText(v: Value, yaml: bool): string
    requires RealFree(v)
    decreases v
  {
    match v
    case Array(es) => "[" + FastElements(es, yaml, true) + "]"
    case Object(ms) => "{" + FastMembers(ms, yaml, true) + "}"
    case _ => Tokens(v)[0]
  }

  function FastElements(es: seq<Value>, yaml: bool, first: bool): string
    requires forall i :: 0 <= i < |es| ==> RealFree(es[i])
    decreases es
  {
    if es == [] then ""
    else FastSeparator(first) + FastText(es[0], yaml) + FastElements(es[1..], yaml, false)
  }

  function FastSeparator(first: bool): string {
    if first then "" else ","
  }

  function FastMembers(ms: seq<Member>, yaml: bool, first: bool): string
    requires forall i :: 0 <= i < |ms| ==> RealFree(ms[i].value)
    decreases ms
  {
    if ms == [] then ""
    else FastName(ms[0].name, yaml, first) + FastText(ms[0].value, yaml) + FastMembers(ms[1..], yaml, false)
  }

  function FastName(name: string, yaml: bool, first: bool): string {
    FastSeparator(first) + Quote(name) + if yaml then ": " else ":"
  }

  /** What FastWriter writes spells the tokens of the tree; without the YAML
      option it is those tokens and nothing else. */
  lemma {:induction false} FastTextSpellsTokens(v: Value, yaml: bool)
    requires RealFree(v)
    ensures Spaced(FastText(v, yaml), Tokens(v))
    ensures !yaml ==> FastText(v, yaml) == Join(Tokens(v))
    decreases v
  {
    if v.Array? {
      FastElementsSpellTokens(v.elements, yaml);
      Enclose("[", FastElements(v.elements, yaml, true), ElementTokens(v.elements), "]");
    } else if v.Object? {
      FastMembersSpellTokens(v.members, yaml);
      Enclose("{", FastMembers(v.members, yaml, true), MemberTokens(v.members), "}");
    } else {
      TokensSolid(v);
      SpacedJoin(Tokens(v));
      JoinOne(Tokens(v)[0]);
    }
  }

  lemma {:induction false} Enclose(open: string, text: string, toks: seq<string>, close: string)
    requires Spaced(text, toks) && AllSolid(toks) && Solid(open) && Solid(close)
    ensures Spaced(open + text + close, [open] + toks + [close])
    ensures text == Join(toks) ==> open + text + close == Join([open] + toks + [close])
  {
    SpacedToken(open);
    SpacedToken(close);
    SpacedAppend(open, [open], text, toks);
    SpacedAppend(open + text, [open] + toks, close, [close]);
    JoinAppend([open], toks);
    JoinAppend([open] + toks, [close]);
    JoinOne(open);
    JoinOne(close);
  }

  lemma {:induction false} JoinOne(tok: string)
    ensures Join([tok]) == tok
  {
    assert Join([tok]) == tok + Join([]);
  }

  lemma {:induction false} FastElementsSpellTokens(es: seq<Value>, yaml: bool)
    requires forall i :: 0 <= i < |es| ==> RealFree(es[i])
    ensures Spaced(FastElements(es, yaml, true), ElementTokens(es)) && AllSolid(ElementTokens(es))
    ensures !yaml ==> FastElements(es, yaml, true) == Join(ElementTokens(es))
    decreases es
  {
    ElementTokensSolid(es);
    if es == [] {
      SpacedBlank("");
    } else {
      FastTextSpellsTokens(es[0], yaml);
      FastElementsSpellTokens(es[1..], yaml);
      TokensSolid(es[0]);
      FastElementsSplit(es, yaml);
      if |es| > 1 {
        Separate(FastText(es[0], yaml), Tokens(es[0]), FastElements(es[1..], yaml, true), ElementTokens(es[1..]));
      }
    }
  }

  lemma {:induction false} FastElementsSplit(es: seq<Value>, yaml: bool)
    requires es != [] && forall i :: 0 <= i < |es| ==> RealFree(es[i])
    ensures FastElements(es, yaml, true) ==
            if |es| == 1 then FastText(es[0], yaml)
            else FastText(es[0], yaml) + ("," + FastElements(es[1..], yaml, true))
    ensures ElementTokens(es) ==
            if |es| == 1 then Tokens(es[0]) else Tokens(es[0]) + ([","] + ElementTokens(es[1..]))
  {
    FastElementsFirst(es, yaml);
    if |es| > 1 {
      FastElementsComma(es[1..], yaml);
      Reassociate(Tokens(es[0]), [","], ElementTokens(es[1..]));
    }
  }

  lemma {:induction false} Reassociate<T>(a: seq<T>, b: seq<T>, c: seq<T>)
    ensures a + (b + c) == a + b + c
  {
  }

  lemma {:induction false} FastElementsFirst(es: seq<Value>, yaml: bool)
    requires es != [] && forall i :: 0 <= i < |es| ==> RealFree(es[i])
    ensures FastElements(es, yaml, true) == FastText(es[0], yaml) + FastElements(es[1..], yaml, false)
    ensures |es| == 1 ==> FastElements(es, yaml, true) == FastText(es[0], yaml)
  {
    assert "" + FastText(es[0], yaml) == FastText(es[0], yaml);
    if |es| == 1 {
      assert FastElements(es[1..], yaml, false) == "";
    }
  }

  lemma {:induction false} FastElementsComma(es: seq<Value>, yaml: bool)
    requires es != [] && forall i :: 0 <= i < |es| ==> RealFree(es[i])
    ensures FastElements(es, yaml, false) == "," + FastElements(es, yaml, true)
  {
    var text, rest := FastText(es[0], yaml), FastElements(es[1..], yaml, false);
    assert "," + text + rest == "," + (text + rest);
    assert "" + text + rest == text + rest;
  }

  lemma {:induction false} Separate(a: string, x: seq<string>, b: string, y: seq<string>)
    requires Spaced(a, x) && Spaced(b, y) && AllSolid(x)
    ensures Spaced(a + ("," + b), x + ([","] + y))
    ensures a == Join(x) && b == Join(y) ==> a + ("," + b) == Join(x + ([","] + y))
  {
    SpacedToken(",");
    SpacedAppend(",", [","], b, y);
    SpacedAppend(a, x, "," + b, [","] + y);
    JoinAppend([","], y);
    JoinOne(",");
    JoinAppend(x, [","] + y);
  }

  /** A name, its colon and the spelled value. */
  lemma {:induction false} FastNameSpellsTokens(name: string, yaml: bool, text: string, toks: seq<string>)
    requires Spaced(text, toks)
    ensures Spaced(FastName(name, yaml, true) + text, [Quote(name), ":"] + toks)
    ensures !yaml && text == Join(toks) ==> FastName(name, yaml, true) + text == Join([Quote(name), ":"] + toks)
  {
    var q := Quote(name);
    SpacedToken(q);
    SpacedToken(":");
    SpacedBlank(" ");
    SpacedAppend(":", [":"], " ", []);
    var colon := if yaml then ": " else ":";
    assert [":"] + [] == [":"] && ":" + " " == ": ";
    SpacedAppend(q, [q], colon, [":"]);
    assert [q] + [":"] == [q, ":"];
    assert FastName(name, yaml, true) == q + colon;
    SpacedAppend(q + colon, [q, ":"], text, toks);
    JoinOne(q);
    JoinOne(":");
    JoinAppend([q], [":"]);
    JoinAppend([q, ":"], toks);
  }

  lemma {:induction false} FastMembersSpellTokens(ms: seq<Member>, yaml: bool)
    requires forall i :: 0 <= i < |ms| ==> RealFree(ms[i].value)
    ensures Spaced(FastMembers(ms, yaml, true), MemberTokens(ms)) && AllSolid(MemberTokens(ms))
    ensures !yaml ==> FastMembers(ms, yaml, true) == Join(MemberTokens(ms))
    decreases ms
  {
    MemberTokensSolid(ms);
    if ms == [] {
      SpacedBlank("");
    } else {
      var name, v := ms[0].name, ms[0].value;
      FastTextSpellsTokens(v, yaml);
      FastMembersSpellTokens(ms[1..], yaml);
      TokensSolid(v);
      FastNameSpellsTokens(name, yaml, FastText(v, yaml), Tokens(v));
      var head, x := FastName(name, yaml, true) + FastText(v, yaml), [Quote(name), ":"] + Tokens(v);
      if |ms| == 1 {
        assert FastMembers(ms, yaml, true) == head && MemberTokens(ms) == x;
      } else {
        FastMembersComma(ms[1..], yaml);
        var tail := FastMembers(ms[1..], yaml, true);
        assert FastMembers(ms, yaml, true) == head + ("," + tail);
        Separate(head, x, tail, MemberTokens(ms[1..]));
        assert MemberTokens(ms) == x + ([","] + MemberTokens(ms[1..]));
      }
    }
  }

  lemma {:induction false} FastMembersComma(ms: seq<Member>, yaml: bool)
    requires ms != [] && forall i :: 0 <= i < |ms| ==> RealFree(ms[i].value)
    ensures FastMembers(ms, yaml, false) == "," + FastMembers(ms, yaml, true)
  {
    FastNameComma(ms[0].name, yaml);
    var head, text, rest := FastName(ms[0].name, yaml, true), FastText(ms[0].value, yaml),
                            FastMembers(ms[1..], yaml, false);
    assert "," + head + text + rest == "," + (head + text + rest);
  }

  lemma {:induction false} FastNameComma(name: string, yaml: bool)
    ensures FastName(name, yaml, false) == "," + FastName(name, yaml, true)
  {
  }

  /** doc is start followed by the first `index` elements. */
  predicate ElementsWritten(doc: string, start: string, es: seq<Value>, index: nat, yaml: bool)
    requires index <= |es| && forall i :: 0 <= i < |es| ==> RealFree(es[i])
  {
    doc + FastElements(es[index..], yaml, index == 0) == start + FastElements(es, yaml, true)
  }

  lemma {:induction false} NextElementWritten(d0: string, d1: string, d2: string, start: string,
                                              es: seq<Value>, index: nat, yaml: bool)
    requires index < |es| && forall i :: 0 <= i < |es| ==> RealFree(es[i])
    requires ElementsWritten(d0, start, es, index, yaml)
    requires d1 == d0 + FastSeparator(index == 0) && d2 == d1 + FastText(es[index], yaml)
    ensures ElementsWritten(d2, start, es, index + 1, yaml)
  {
    assert es[index..][1..] == es[index + 1..];
    var sep, text, rest := FastSeparator(index == 0), FastText(es[index], yaml),
                           FastElements(es[index + 1..], yaml, false);
    assert FastElements(es[index..], yaml, index == 0) == sep + text + rest;
    Reassociate(d0, sep + text, rest);
    Reassociate(d0, sep, text);
  }

  predicate MembersWritten(doc: string, start: string, ms: seq<Member>, index: nat, yaml: bool)
    requires index <= |ms| && forall i :: 0 <= i < |ms| ==> RealFree(ms[i].value)
  {
    doc + FastMembers(ms[index..], yaml, index == 0) == start + FastMembers(ms, yaml, true)
  }

  lemma {:induction false} NextMemberWritten(d0: string, d1: string, d2: string, start: string,
                                             ms: seq<Member>, index: nat, yaml: bool)
    requires index < |ms| && forall i :: 0 <= i < |ms| ==> RealFree(ms[i].value)
    requires MembersWritten(d0, start, ms, index, yaml)
    requires d1 == d0 + FastName(ms[index].name, yaml, index == 0)
    requires d2 == d1 + FastText(ms[index].value, yaml)
    ensures MembersWritten(d2, start, ms, index + 1, yaml)
  {
    assert ms[index..][1..] == ms[index + 1..];
    var head, text, rest := FastName(ms[index].name, yaml, index == 0), FastText(ms[index].value, yaml),
                            FastMembers(ms[index + 1..], yaml, false);
    assert FastMembers(ms[index..], yaml, index == 0) == head + text + rest;
    Reassociate(d0, head + text, rest);
    Reassociate(d0, head, text);
  }

  lemma {:induction false} AllMembersWritten(doc: string, before: string, start: string, ms: seq<Member>, yaml: bool)
    requires start == before + "{"
    requires forall i :: 0 <= i < |ms| ==> RealFree(ms[i].value)
    requires MembersWritten(doc, start, ms, |ms|, yaml)
    ensures doc + "}" == before + ("{" + FastMembers(ms, yaml, true) + "}")
  {
    assert ms[|ms|..] == [];
    assert doc == start + FastMembers(ms, yaml, true);
  }

  /** The tokens one after another, with a blank behind each colon for YAML. */
  function JoinFor(yaml: bool, toks: seq<string>): string {
    if toks == [] then "" else (if yaml && toks[0] == ":" then ": " else toks[0]) + JoinFor(yaml, toks[1..])
  }

  lemma {:induction false} JoinForAppend(yaml: bool, x: seq<string>, y: seq<string>)
    ensures JoinFor(yaml, x + y) == JoinFor(yaml, x) + JoinFor(yaml, y)
  {
    if x == [] {
      assert x + y == y;
    } else {
      assert (x + y)[1..] == x[1..] + y;
      JoinForAppend(yaml, x[1..], y);
      Reassociate(if yaml && x[0] == ":" then ": " else x[0], JoinFor(yaml, x[1..]), JoinFor(yaml, y));
    }
  }

  lemma {:induction false} JoinForOne(yaml: bool, tok: string)
    ensures JoinFor(yaml, [tok]) == if yaml && tok == ":" then ": " else tok
  {
    var head := if yaml && tok == ":" then ": " else tok;
    assert JoinFor(yaml, [tok]) == head + JoinFor(yaml, []) == head;
  }

  /** The compact text to the character, in both forms. */
  lemma {:induction false} FastTextIsJoined(v: Value, yaml: bool)
    requires RealFree(v)
    ensures FastText(v, yaml) == JoinFor(yaml, Tokens(v))
    decreases v
  {
    if v.Array? {
      FastElementsAreJoined(v.elements, yaml);
      EnclosedFor(yaml, "[", ElementTokens(v.elements), "]");
    } else if v.Object? {
      FastMembersAreJoined(v.members, yaml);
      EnclosedFor(yaml, "{", MemberTokens(v.members), "}");
    } else {
      assert Tokens(v) == [Tokens(v)[0]];
      assert Tokens(v)[0][0] != ':';
      JoinForOne(yaml, Tokens(v)[0]);
    }
  }

  lemma {:induction false} EnclosedFor(yaml: bool, open: string, toks: seq<string>, close: string)
    requires open != ":" && close != ":"
    ensures JoinFor(yaml, [open] + toks + [close]) == open + JoinFor(yaml, toks) + close
  {
    JoinForAppend(yaml, [open] + toks, [close]);
    JoinForAppend(yaml, [open], toks);
    JoinForOne(yaml, open);
    JoinForOne(yaml, close);
  }

  /** Two pieces with a comma between them. */
  lemma {:induction false} SeparatedFor(yaml: bool, x: seq<string>, y: seq<string>)
    ensures JoinFor(yaml, x + ([","] + y)) == JoinFor(yaml, x) + ("," + JoinFor(yaml, y))
  {
    JoinForAppend(yaml, x, [","] + y);
    JoinForAppend(yaml, [","], y);
    JoinForOne(yaml, ",");
  }

  lemma {:induction false} FastElementsAreJoined(es: seq<Value>, yaml: bool)
    requires forall i :: 0 <= i < |es| ==> RealFree(es[i])
    ensures FastElements(es, yaml, true) == JoinFor(yaml, ElementTokens(es))
    decreases es
  {
    if es != [] {
      FastTextIsJoined(es[0], yaml);
      FastElementsAreJoined(es[1..], yaml);
      FastElementsSplit(es, yaml);
      SeparatedFor(yaml, Tokens(es[0]), ElementTokens(es[1..]));
    }
  }

  lemma {:induction false} FastMembersAreJoined(ms: seq<Member>, yaml: bool)
    requires forall i :: 0 <= i < |ms| ==> RealFree(ms[i].value)
    ensures FastMembers(ms, yaml, true) == JoinFor(yaml, MemberTokens(ms))
    decreases ms
  {
    if ms != [] {
      var q, v := Quote(ms[0].name), ms[0].value;
      var x := [q, ":"] + Tokens(v);
      FastTextIsJoined(v, yaml);
      JoinForAppend(yaml, [q, ":"], Tokens(v));
      assert [q, ":"] == [q] + [":"] && "" + q == q;
      JoinForAppend(yaml, [q], [":"]);
      JoinForOne(yaml, q);
      JoinForOne(yaml, ":");
      var head := FastName(ms[0].name, yaml, true) + FastText(v, yaml);
      assert head == JoinFor(yaml, x);
      if |ms| == 1 {
        assert FastMembers(ms, yaml, true) == head + "" == head && MemberTokens(ms) == x + [] == x;
      } else {
        FastMembersAreJoined(ms[1..], yaml);
        FastMembersComma(ms[1..], yaml);
        SeparatedFor(yaml, x, MemberTokens(ms[1..]));
        assert FastMembers(ms, yaml, true) == head + ("," + FastMembers(ms[1..], yaml, true));
        assert MemberTokens(ms) == x + ([","] + MemberTokens(ms[1..]));
      }
    }
  }

  class FastWriter {
    var document: string
    var yamlCompatibilityEnabled: bool

    constructor ()
      ensures !yamlCompatibilityEnabled
    {
      document, yamlCompatibilityEnabled := "", false;
    }

    method EnableYamlCompatibility()
      modifies this`yamlCompatibilityEnabled
      ensures yamlCompatibilityEnabled
    {
      yamlCompatibilityEnabled := true;
    }

    method Write(root: Value) returns (text: string)
      requires Printable(root) && RealFree(root)
      modifies this`document
      ensures text == FastText(root, yamlCompatibilityEnabled) + "\n"
    {
      document := "";
      WriteValue(root);
      document := document + "\n";
      return document;
    }

    method WriteValue(v: Value)
      requires Printable(v) && RealFree(v)
      modifies this`document
      ensures document == old(document) + FastText(v, yamlCompatibilityEnabled)
      decreases v, 2
    {
      if v.Array? {
        WriteArray(v.elements);
      } else if v.Object? {
        WriteObject(v.members);
      } else {
        var text := ScalarToString(v);
        document := document + text;
      }
    }

    method WriteArray(es: seq<Value>)
      requires forall i :: 0 <= i < |es| ==> Printable(es[i]) && RealFree(es[i])
      modifies this`document
      ensures document == old(document) + ("[" + FastElements(es, yamlCompatibilityEnabled, true) + "]")
      decreases es, 0
    {
      ghost var yaml := yamlCompatibilityEnabled;
      document := document + "[";
      ghost var start := document;
      for index := 0 to |es|
        invariant ElementsWritten(document, start, es, index, yaml)
      {
        ghost var before := document;
        if index > 0 {
          document := document + ",";
        }
        assert document == before + FastSeparator(index == 0);
        ghost var separated := document;
        WriteValue(es[index]);
        NextElementWritten(before, separated, document, start, es, index, yaml);
      }
      assert document == start + FastElements(es, yaml, true);
      document := document + "]";
    }

    method WriteObject(ms: seq<Member>)
      requires forall i :: 0 <= i < |ms| ==> Printable(ms[i].value) && RealFree(ms[i].value)
      modifies this`document
      ensures document == old(document) + ("{" + FastMembers(ms, yamlCompatibilityEnabled, true) + "}")
      decreases ms, 1
    {
      ghost var yaml := yamlCompatibilityEnabled;
      document := document + "{";
      ghost var start := document;
      for index := 0 to |ms|
        invariant MembersWritten(document, start, ms, index, yaml)
      {
        WriteMember(ms, index, start);
      }
      AllMembersWritten(document, old(document), start, ms, yaml);
      document := document + "}";
    }

    method WriteMember(ms: seq<Member>, index: nat, ghost start: string)
      requires index < |ms| && forall i :: 0 <= i < |ms| ==> Printable(ms[i].value) && RealFree(ms[i].value)
      requires MembersWritten(document, start, ms, index, yamlCompatibilityEnabled)
      modifies this`document
      ensures MembersWritten(document, start, ms, index + 1, yamlCompatibilityEnabled)
      decreases ms, 0
    {
      ghost var before := document;
      WriteName(ms[index].name, index == 0);
      ghost var named := document;
      WriteValue(ms[index].value);
      NextMemberWritten(before, named, document, start, ms, index, yamlCompatibilityEnabled);
    }

    method WriteName(name: string, first: bool)
      modifies this`document
      ensures document == old(document) + FastName(name, yamlCompatibilityEnabled, first)
    {
      if !first {
        document := document + ",";
      }
      var quoted := ValueToQuotedString(name);
      document := document + quoted;
      document := document + if yamlCompatibilityEnabled then ": " else ":";
    }
  }
}

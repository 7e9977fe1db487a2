/** The token sequence of a value tree, as both writers of
    clientsdk/json/json_writer.cpp emit it, and texts that spell a token
    sequence with any white space in between. */
module JsonTokens {
  import opened JsonLexer
  import opened JsonValue
  import Decimal

  // ---- scalars ----

  function DigitText(ds: seq<Decimal.Digit>): (r: string)
    ensures |r| == |ds|
    ensures forall i :: 0 <= i < |r| ==> IsDigit(r[i])
  {
    seq(|ds|, i requires 0 <= i < |ds| => (ds[i] + '0' as int) as char)
  }

  function IntText(n: int): string {
    if n < 0 then "-" + DigitText(Decimal.Digits(-n)) else DigitText(Decimal.Digits(n))
  }

  predicate IsControl(c: char) {
    1 as char <= c <= 0x1F as char
  }

  function UpperHex(d: nat): char
    requires d < 16
  {
    if d < 10 then (d + '0' as int) as char else (d - 10 + 'A' as int) as char
  }

  function EscapeChar(c: char): string {
    match c
    case '"' => "\\\""
    case '\\' => "\\\\"
    case '\n' => "\\n"
    case '\r' => "\\r"
    case '\t' => "\\t"
    case _ =>
      if c == 8 as char then "\\b"
      else if c == 12 as char then "\\f"
      else if IsControl(c) then "\\u00" + [UpperHex(c as int / 16), UpperHex(c as int % 16)]
      else [c]
  }

  function Escape(s: string): string {
    if s == "" then "" else EscapeChar(s[0]) + Escape(s[1..])
  }

  function Quote(s: string): string {
    "\"" + Escape(s) + "\""
  }

  // ---- trees ----

  function Tokens(v: Value): (r: seq<string>)
    requires RealFree(v)
    decreases v
  {
    match v
    case Null => ["null"]
    case Bool(b) => [if b then "true" else "false"]
    case Int(i) => [IntText(i)]
    case UInt(u) => [IntText(u)]
    case String(s) => [Quote(s)]
    case Array(es) => ["["] + ElementTokens(es) + ["]"]
    case Object(ms) => ["{"] + MemberTokens(ms) + ["}"]
  }

  function ElementTokens(es: seq<Value>): seq<string>
    requires forall i :: 0 <= i < |es| ==> RealFree(es[i])
    decreases es
  {
    if es == [] then []
    else if |es| == 1 then Tokens(es[0])
    else Tokens(es[0]) + [","] + ElementTokens(es[1..])
  }

  function MemberTokens(ms: seq<Member>): seq<string>
    requires forall i :: 0 <= i < |ms| ==> RealFree(ms[i].value)
    decreases ms
  {
    if ms == [] then []
    else [Quote(ms[0].name), ":"] + Tokens(ms[0].value)
         + if |ms| == 1 then [] else [","] + MemberTokens(ms[1..])
  }

  /** The tokens one after another. */
  function Join(toks: seq<string>): string {
    if toks == [] then "" else toks[0] + Join(toks[1..])
  }

  /** text is the tokens in order, with white space allowed around each. */
  predicate Spaced(text: string, toks: seq<string>)
    decreases |toks|
  {
    var t := SkipSpaces(text);
    if toks == [] then t == "" else toks[0] <= t && Spaced(t[|toks[0]|..], toks[1..])
  }

  predicate Solid(tok: string) {
    tok != "" && !IsSpace(tok[0])
  }

  predicate AllSolid(toks: seq<string>) {
    forall i :: 0 <= i < |toks| ==> Solid(toks[i])
  }

  lemma {:induction false} SkipSpacesAppend(a: string, b: string)
    ensures SkipSpaces(a + b) == if SkipSpaces(a) == "" then SkipSpaces(b) else SkipSpaces(a) + b
  {
    if a == "" {
      assert a + b == b;
    } else if IsSpace(a[0]) {
      SkipSpacesAppend(a[1..], b);
      assert (a + b)[1..] == a[1..] + b;
    }
  }

  lemma {:induction false} SpacedAppend(a: string, x: seq<string>, b: string, y: seq<string>)
    requires Spaced(a, x) && Spaced(b, y) && AllSolid(x)
    ensures Spaced(a + b, x + y)
    decreases |x|
  {
    SkipSpacesAppend(a, b);
    if x == [] {
      assert x + y == y;
    } else {
      var t := SkipSpaces(a);
      SpacedAppend(t[|x[0]|..], x[1..], b, y);
      assert (x + y)[1..] == x[1..] + y;
      assert (t + b)[|x[0]|..] == t[|x[0]|..] + b;
      assert (x + y)[0] == x[0];
    }
  }

  lemma SpacedToken(tok: string)
    requires Solid(tok)
    ensures Spaced(tok, [tok])
  {
    assert tok[|tok|..] == "";
  }

  lemma {:induction false} SpacedBlank(a: string)
    requires forall i :: 0 <= i < |a| ==> IsSpace(a[i])
    ensures SkipSpaces(a) == "" && Spaced(a, [])
  {
    if a != "" {
      SpacedBlank(a[1..]);
    }
  }

  lemma {:induction false} SpacedJoin(toks: seq<string>)
    requires AllSolid(toks)
    ensures Spaced(Join(toks), toks)
  {
    if toks != [] {
      SpacedJoin(toks[1..]);
      SpacedToken(toks[0]);
      SpacedAppend(toks[0], [toks[0]], Join(toks[1..]), toks[1..]);
      assert [toks[0]] + toks[1..] == toks;
    }
  }

  lemma {:induction false} JoinAppend(x: seq<string>, y: seq<string>)
    ensures Join(x + y) == Join(x) + Join(y)
  {
    if x == [] {
      assert x + y == y;
    } else {
      JoinAppend(x[1..], y);
      assert (x + y)[1..] == x[1..] + y;
    }
  }

  lemma {:induction false} TokensSolid(v: Value)
    requires RealFree(v)
    ensures Tokens(v) != [] && AllSolid(Tokens(v))
    decreases v
  {
    match v
    case Array(es) => ElementTokensSolid(es);
    case Object(ms) => MemberTokensSolid(ms);
    case _ =>
  }

  lemma {:induction false} ElementTokensSolid(es: seq<Value>)
    requires forall i :: 0 <= i < |es| ==> RealFree(es[i])
    ensures AllSolid(ElementTokens(es))
    ensures es != [] ==> ElementTokens(es) != []
    decreases es
  {
    if es != [] {
      TokensSolid(es[0]);
      if |es| > 1 {
        ElementTokensSolid(es[1..]);
      }
    }
  }

  lemma {:induction false} MemberTokensSolid(ms: seq<Member>)
    requires forall i :: 0 <= i < |ms| ==> RealFree(ms[i].value)
    ensures AllSolid(MemberTokens(ms))
    decreases ms
  {
    if ms != [] {
      TokensSolid(ms[0].value);
      if |ms| > 1 {
        MemberTokensSolid(ms[1..]);
      }
    }
  }
}

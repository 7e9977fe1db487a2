/** The lexical half of clientsdk/json/json_reader.cpp as functions of the text
    still to be read.  The C++ cursor `current_` is the start of that text. */
module JsonLexer {
  datatype Kind =
    | ObjectBegin | ObjectEnd | ArrayBegin | ArrayEnd
    | StringToken | NumberToken | TrueToken | FalseToken | NullToken
    | ArraySeparator | MemberSeparator
    | CommentToken | EndOfStream | ErrorToken

  /** `left` is the length of the text from the token's first character on. */
  datatype Token = Token(kind: Kind, text: string, left: nat)

  /** A scan that succeeds or fails and leaves the text after it. */
  datatype Scan = Scan(ok: bool, rest: string)

  /** A token and the text after it. */
  datatype Lexed = Lexed(token: Token, rest: string)

  predicate IsSpace(c: char) {
    c == ' ' || c == '\t' || c == '\r' || c == '\n'
  }

  predicate IsDigit(c: char) {
    '0' <= c <= '9'
  }

  /** The characters that continue a number token. */
  predicate IsNumberChar(c: char) {
    IsDigit(c) || c == '.' || c == 'e' || c == 'E' || c == '+' || c == '-'
  }

  function SkipSpaces(s: string): (r: string)
    ensures |r| <= |s|
    ensures r != "" ==> !IsSpace(r[0])
  {
    if s != "" && IsSpace(s[0]) then SkipSpaces(s[1..]) else s
  }

  function ScanNumber(s: string): (r: string)
    ensures |r| <= |s|
  {
    if s != "" && IsNumberChar(s[0]) then ScanNumber(s[1..]) else s
  }

  /** From after the opening quote to after the closing one. */
  function ScanString(s: string): (r: Scan)
    ensures |r.rest| <= |s|
    ensures r.ok ==> |r.rest| < |s|
  {
    if s == "" then Scan(false, "")
    else if s[0] == '"' then Scan(true, s[1..])
    else if s[0] == '\\' then (if |s| == 1 then Scan(false, "") else ScanString(s[2..]))
    else ScanString(s[1..])
  }

  function ScanCStyleComment(s: string): (r: Scan)
    ensures |r.rest| <= |s|
  {
    if s == "" then Scan(false, "")
    else if s[0] == '*' && |s| > 1 && s[1] == '/' then Scan(true, s[2..])
    else ScanCStyleComment(s[1..])
  }

  function ScanCppStyleComment(s: string): (r: string)
    ensures |r| <= |s|
  {
    if s == "" then ""
    else if s[0] == '\r' || s[0] == '\n' then s[1..]
    else ScanCppStyleComment(s[1..])
  }

  /** From after the first slash. */
  function ScanComment(s: string): (r: Scan)
    ensures |r.rest| <= |s|
  {
    if s == "" then Scan(false, "")
    else if s[0] == '*' then ScanCStyleComment(s[1..])
    else if s[0] == '/' then Scan(true, ScanCppStyleComment(s[1..]))
    else Scan(false, s[1..])
  }

  /** On a mismatch nothing is consumed. */
  function ScanWord(s: string, word: string): (r: Scan)
    ensures |r.rest| <= |s|
  {
    if word <= s then Scan(true, s[|word|..]) else Scan(false, s)
  }

  /** The kind of the token that starts with c and the text after it, where s
      is the text after c. */
  function Classify(c: char, s: string): (r: (Kind, string))
    ensures |r.1| <= |s|
    ensures r.0 == StringToken ==> |r.1| < |s|
  {
    match c
    case '{' => (ObjectBegin, s)
    case '}' => (ObjectEnd, s)
    case '[' => (ArrayBegin, s)
    case ']' => (ArrayEnd, s)
    case ',' => (ArraySeparator, s)
    case ':' => (MemberSeparator, s)
    case '"' => var r := ScanString(s); (if r.ok then StringToken else ErrorToken, r.rest)
    case '/' => var r := ScanComment(s); (if r.ok then CommentToken else ErrorToken, r.rest)
    case 't' => var r := ScanWord(s, "rue"); (if r.ok then TrueToken else ErrorToken, r.rest)
    case 'f' => var r := ScanWord(s, "alse"); (if r.ok then FalseToken else ErrorToken, r.rest)
    case 'n' => var r := ScanWord(s, "ull"); (if r.ok then NullToken else ErrorToken, r.rest)
    case '\0' => (EndOfStream, s)
    case _ => if IsDigit(c) || c == '-' then (NumberToken, ScanNumber(s)) else (ErrorToken, s)
  }

  /** Every token consumes input, or the stream is over. */
  function ReadToken(s: string): (r: Lexed)
    ensures |r.rest| <= |s|
    ensures r.token.kind != EndOfStream ==> |r.rest| < |s|
    ensures r.token.kind == StringToken ==> |r.token.text| >= 2
    ensures r.token.kind != EndOfStream ==> r.token.text != ""
  {
    var t := SkipSpaces(s);
    if t == "" then Lexed(Token(EndOfStream, "", 0), "")
    else
      var (kind, rest) := Classify(t[0], t[1..]);
      Lexed(Token(kind, t[..|t| - |rest|], |t|), rest)
  }

  /** Reads past comments to the first other token. */
  function SkipComments(s: string): (r: Lexed)
    ensures |r.rest| <= |s|
    ensures r.token.kind != CommentToken
    ensures r.token.kind != EndOfStream ==> |r.rest| < |s|
    ensures r.token.kind == StringToken ==> |r.token.text| >= 2
    ensures r.token.kind != EndOfStream ==> r.token.text != ""
    decreases |s|
  {
    var l := ReadToken(s);
    if l.token.kind == CommentToken then SkipComments(l.rest) else l
  }

  /** The text after the next token of kind `until`, or after the end. */
  function Recover(s: string, until: Kind): (r: string)
    ensures |r| <= |s|
    decreases |s|
  {
    var l := ReadToken(s);
    if l.token.kind == until || l.token.kind == EndOfStream then l.rest else Recover(l.rest, until)
  }

  /** The text after n tokens. */
  function Dropped(s: string, n: nat): string
    decreases n
  {
    if n == 0 then s else Dropped(ReadToken(s).rest, n - 1)
  }

  /** Whether recovery ends with the token after the first n. */
  predicate Stops(s: string, n: nat, until: Kind) {
    var kind := ReadToken(Dropped(s, n)).token.kind;
    kind == until || kind == EndOfStream
  }

  /** Recovery drops tokens up to the first of the wanted kind, and that one, or
      to the end of the text. */
  lemma {:induction false} RecoverStops(s: string, until: Kind) returns (n: nat)
    ensures Recover(s, until) == ReadToken(Dropped(s, n)).rest
    ensures Stops(s, n, until) && forall i :: 0 <= i < n ==> !Stops(s, i, until)
    decreases |s|
  {
    n := 0;
    if !Stops(s, 0, until) {
      var rest := ReadToken(s).rest;
      var m := RecoverStops(rest, until);
      n := m + 1;
      forall i | 0 < i <= n ensures Stops(s, i, until) <==> Stops(rest, i - 1, until) {
        assert Dropped(s, i) == Dropped(rest, i - 1);
      }
      assert Recover(s, until) == Recover(rest, until);
    }
  }
}

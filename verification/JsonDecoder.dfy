/** How clientsdk/json/json_reader.cpp turns string and number tokens into
    values. */
module JsonDecoder {
  import opened JsonLexer
  import opened JsonValue

  datatype ErrorKind =
    | ValueExpected | MissingName | MissingColon | MissingCommaOrBrace
    | EmptyEscape | BadEscape | FourDigitsExpected | HexDigitExpected
    | SixCharactersExpected | SecondHalfExpected
    | NotANumber | RootNotContainer

  datatype Option<+T> = None | Some(value: T)

  // ---- strings ----

  datatype Decoded = Good(text: string) | Bad(error: ErrorKind)
  datatype CodePoint = CodePoint(unicode: nat, rest: string) | BadCodePoint(error: ErrorKind)

  function HexDigit(c: char): (r: Option<nat>)
    ensures r.Some? ==> r.value < 16
  {
    if '0' <= c <= '9' then Some(c as int - '0' as int)
    else if 'a' <= c <= 'f' then Some(c as int - 'a' as int + 10)
    else if 'A' <= c <= 'F' then Some(c as int - 'A' as int + 10)
    else None
  }

  /** `count` hexadecimal digits on top of the value read so far. */
  function HexDigits(s: string, count: nat, unicode: nat): (r: CodePoint)
    requires count <= |s|
    ensures r.CodePoint? ==> |r.rest| == |s| - count
  {
    if count == 0 then CodePoint(unicode, s)
    else match HexDigit(s[0])
      case None => BadCodePoint(HexDigitExpected)
      case Some(d) => HexDigits(s[1..], count - 1, unicode * 16 + d)
  }

  lemma {:induction false} HexDigitsBound(s: string, count: nat, unicode: nat, bound: nat)
    requires count <= |s| && unicode < bound
    ensures var r := HexDigits(s, count, unicode);
            r.CodePoint? ==> r.unicode < bound * Pow16(count)
    decreases count
  {
    if count > 0 {
      match HexDigit(s[0])
      case None =>
      case Some(d) => HexDigitsBound(s[1..], count - 1, unicode * 16 + d, bound * 16);
    }
  }

  function Pow16(n: nat): nat {
    if n == 0 then 1 else 16 * Pow16(n - 1)
  }

  /** From after `\u`. */
  function DecodeEscapeSequence(s: string): (r: CodePoint)
    ensures r.CodePoint? ==> |r.rest| == |s| - 4 && r.unicode <= 0xFFFF
  {
    if |s| < 4 then BadCodePoint(FourDigitsExpected)
    else HexDigitsBound(s, 4, 0, 1); HexDigits(s, 4, 0)
  }

  /** From after `\u`, with the second half of a surrogate pair. */
  function DecodeCodePoint(s: string): (r: CodePoint)
    ensures r.CodePoint? ==> |r.rest| < |s| && r.unicode <= 0x10FFFF
  {
    var first := DecodeEscapeSequence(s);
    if first.BadCodePoint? || !(0xD800 <= first.unicode <= 0xDBFF) then first
    else if |first.rest| < 6 then BadCodePoint(SixCharactersExpected)
    else if first.rest[0] != '\\' || first.rest[1] != 'u' then BadCodePoint(SecondHalfExpected)
    else
      var second := DecodeEscapeSequence(first.rest[2..]);
      if second.BadCodePoint? then second
      else CodePoint(0x10000 + first.unicode % 0x400 * 0x400 + second.unicode % 0x400, second.rest)
  }

  function CodePointToUtf8(cp: nat): string
    requires cp <= 0x10FFFF
  {
    if cp <= 0x7F then [cp as char]
    else if cp <= 0x7FF then [(0xC0 + cp / 0x40) as char, (0x80 + cp % 0x40) as char]
    else if cp <= 0xFFFF then
      [(0xE0 + cp / 0x1000) as char, (0x80 + cp / 0x40 % 0x40) as char, (0x80 + cp % 0x40) as char]
    else
      [(0xF0 + cp / 0x40000) as char, (0x80 + cp / 0x1000 % 0x40) as char,
       (0x80 + cp / 0x40 % 0x40) as char, (0x80 + cp % 0x40) as char]
  }

  /** The character that a one-letter escape stands for. */
  function SimpleEscape(c: char): Option<char> {
    match c
    case '"' => Some('"')
    case '/' => Some('/')
    case '\\' => Some('\\')
    case 'b' => Some(8 as char)
    case 'f' => Some(12 as char)
    case 'n' => Some('\n')
    case 'r' => Some('\r')
    case 't' => Some('\t')
    case _ => None
  }

  function Prepend(prefix: string, d: Decoded): Decoded {
    if d.Good? then Good(prefix + d.text) else d
  }

  /** The text between the quotes. */
  function DecodeBody(s: string): Decoded
    decreases |s|
  {
    if s == "" || s[0] == '"' then Good("")
    else if s[0] != '\\' then Prepend([s[0]], DecodeBody(s[1..]))
    else if |s| == 1 then Bad(EmptyEscape)
    else if s[1] == 'u' then
      var cp := DecodeCodePoint(s[2..]);
      if cp.BadCodePoint? then Bad(cp.error)
      else Prepend(CodePointToUtf8(cp.unicode), DecodeBody(cp.rest))
    else match SimpleEscape(s[1])
      case None => Bad(BadEscape)
      case Some(c) => Prepend([c], DecodeBody(s[2..]))
  }

  function DecodeString(token: string): Decoded
    requires |token| >= 2
  {
    DecodeBody(token[1..|token| - 1])
  }

  // ---- numbers ----

  datatype Number = Whole(n: nat) | Overflow | Malformed

  const NEGATIVE_THRESHOLD: nat := 214748364
  const POSITIVE_THRESHOLD: nat := 429496729

  /** The digit loop.  The threshold is tested before each digit is added, so
      that the last digit can always be taken. */
  function Accumulate(s: string, value: nat, threshold: nat): Number {
    if s == "" then Whole(value)
    else if !IsDigit(s[0]) then Malformed
    else if value >= threshold then Overflow
    else Accumulate(s[1..], value * 10 + (s[0] as int - '0' as int), threshold)
  }

  predicate HasDoubleChar(s: string) {
    exists i :: 0 <= i < |s| && (s[i] == '.' || s[i] == 'e' || s[i] == 'E' || s[i] == '+'
                                 || (s[i] == '-' && i != 0))
  }

  /** `scan` is sscanf's "%lf". */
  function DecodeDouble(token: string, scan: string -> Option<real>): Option<Value> {
    match scan(token)
    case None => None
    case Some(r) => Some(Real(r))
  }

  function DecodeNumber(token: string, scan: string -> Option<real>): Option<Value>
    requires token != ""
  {
    if HasDoubleChar(token) then DecodeDouble(token, scan)
    else
      var negative := token[0] == '-';
      var digits := if negative then token[1..] else token;
      match Accumulate(digits, 0, if negative then NEGATIVE_THRESHOLD else POSITIVE_THRESHOLD)
      case Malformed => None
      case Overflow => DecodeDouble(token, scan)
      case Whole(n) =>
        if negative then Some(Int(0 - n)) else if n <= MAX_INT then Some(Int(n)) else Some(UInt(n))
  }
}

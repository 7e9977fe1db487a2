/** generateToken and checkToken: a map of strings, joined, enciphered under a
    key that depends on the time, and wrapped in base64 twice. */
module Token {
  import opened Bytes
  import opened CipherModes
  import opened Base64
  import opened Aes
  import Decimal

  type Text = seq<byte>

  const EQUALS: byte := 61

  /** rawkey. */
  const RAW_KEY: Text := [
    55, 100, 100, 99, 101, 102, 56, 55, 54, 57, 52, 55, 52, 101, 48, 57,
    57, 51, 49, 48, 101, 99, 56, 101, 55, 49, 100, 49, 56, 49, 101, 49]

  // ---- split ----

  /** str.find("&", from), or the length when there is none. */
  function FindAmpersand(s: Text, from: nat): (r: nat)
    requires from <= |s|
    ensures from <= r <= |s|
    ensures AMPERSAND !in s[from..r]
    ensures r < |s| ==> s[r] == AMPERSAND
    decreases |s| - from
  {
    if from == |s| || s[from] == AMPERSAND then from else FindAmpersand(s, from + 1)
  }

  /** The non-empty stretches between separators. */
  function Fields(s: Text): seq<Text>
    decreases |s|
  {
    if s == [] then []
    else
      var k := FindAmpersand(s, 0);
      (if k > 0 then [s[..k]] else []) + if k < |s| then Fields(s[k + 1..]) else []
  }

  lemma {:induction false} FindIs(s: Text, from: nat, k: nat)
    requires from <= k <= |s| && AMPERSAND !in s[from..k] && (k < |s| ==> s[k] == AMPERSAND)
    ensures FindAmpersand(s, from) == k
    decreases |s| - from
  {
    if from < k {
      assert s[from] in s[from..k];
      assert s[from..k][1..] == s[from + 1..k];
      FindIs(s, from + 1, k);
    }
  }

  /** A first field without separators, and the rest. */
  lemma {:induction false} FieldsFirst(a: Text, rest: Text)
    requires a != [] && AMPERSAND !in a
    ensures Fields(a + [AMPERSAND] + rest) == [a] + Fields(rest)
    ensures Fields(a) == [a]
  {
    var s := a + [AMPERSAND] + rest;
    assert s[0..|a|] == a && a[0..|a|] == a;
    FindIs(s, 0, |a|);
    FindIs(a, 0, |a|);
    assert s[|a| + 1..] == rest;
  }

  /** Separators in front, or behind another one, make no field: with FieldsFirst
      and the empty text this says what every text splits into. */
  lemma {:induction false} FieldsSkip(rest: Text)
    ensures Fields([AMPERSAND] + rest) == Fields(rest)
  {
    var s := [AMPERSAND] + rest;
    assert s[0..0] == [];
    FindIs(s, 0, 0);
    assert s[1..] == rest;
  }

  /** str.find_first_not_of("&"), or the length. */
  method SkipSeparators(str: Text) returns (pos: nat)
    ensures pos <= |str| && Fields(str[pos..]) == Fields(str)
  {
    pos := 0;
    while pos < |str| && str[pos] == AMPERSAND
      invariant pos <= |str| && Fields(str[pos..]) == Fields(str)
    {
      FindIs(str[pos..], 0, 0);
      assert str[pos..][1..] == str[pos + 1..];
      pos := pos + 1;
    }
  }

  /** split(str, ret, "&"): skips leading separators, then cuts piece by piece. */
  method Split(str: Text) returns (ret: seq<Text>)
    ensures ret == Fields(str)
  {
    var pos := SkipSeparators(str);
    var more := pos < |str|;
    ret := [];
    ghost var all := Fields(str);
    while more
      invariant 0 <= pos <= |str|
      invariant ret + FieldsFrom(str, pos, more) == all
      decreases more, |str| - pos
    {
      ret, pos, more := CutOne(str, ret, pos);
    }
  }

  /** One piece, kept unless it is empty, and where to go on. */
  method CutOne(str: Text, ret: seq<Text>, pos: nat) returns (now: seq<Text>, next: nat, more: bool)
    requires pos <= |str|
    ensures pos <= next <= |str| && (more ==> pos < next)
    ensures now + FieldsFrom(str, next, more) == ret + FieldsFrom(str, pos, true)
  {
    var comma := FindAmpersand(str, pos);
    OneField(str, pos, comma);
    var tmp := str[pos..comma];
    more := comma < |str|;
    next := if more then comma + 1 else pos;
    now := if tmp != [] then ret + [tmp] else ret;
    Regrouped(ret, Pushed([], tmp), FieldsFrom(str, next, more));
    assert now == ret + Pushed([], tmp);
  }

  /** What is still to come, unless pos_begin is npos. */
  function FieldsFrom(s: Text, pos: nat, more: bool): seq<Text>
    requires pos <= |s|
  {
    if more then Fields(s[pos..]) else []
  }

  /** if(!tmp.empty()) ret_.push_back(tmp). */
  function Pushed(ret: seq<Text>, tmp: Text): seq<Text> {
    ret + if tmp != [] then [tmp] else []
  }

  lemma {:induction false} Regrouped(ret: seq<Text>, first: seq<Text>, rest: seq<Text>)
    ensures ret + (first + rest) == (ret + first) + rest
  {
  }

  lemma {:induction false} OneField(s: Text, pos: nat, k: nat)
    requires pos <= |s| && k == FindAmpersand(s, pos)
    ensures FieldsFrom(s, pos, true) ==
            Pushed([], s[pos..k]) + FieldsFrom(s, if k < |s| then k + 1 else pos, k < |s|)
  {
    var t := s[pos..];
    if t != [] {
      assert t[..k - pos] == t[0..k - pos] == s[pos..k];
      FindIs(t, 0, k - pos);
      FieldsAre(t, k - pos, s[pos..k], if k < |s| then s[k + 1..] else []);
    }
  }

  lemma {:induction false} FieldsAre(t: Text, k: nat, first: Text, rest: Text)
    requires t != [] && k <= |t| && FindAmpersand(t, 0) == k && first == t[..k]
    requires k < |t| ==> rest == t[k + 1..]
    ensures Fields(t) == Pushed([], first) + if k < |t| then Fields(rest) else []
  {
    var head, tail := if k > 0 then [first] else [], if k < |t| then Fields(rest) else [];
    assert Fields(t) == head + tail;
    assert Pushed([], first) == [] + head == head;
  }

  // ---- Time as text ----

  /** ss << n. */
  function Ascii(ds: seq<Decimal.Digit>): (r: Text)
    ensures |r| == |ds|
  {
    seq(|ds|, i requires 0 <= i < |ds| => ds[i] as int + 48)
  }

  function TimeText(now: nat): (r: Text)
    ensures r != []
  {
    Ascii(Decimal.Digits(now))
  }

  predicate IsDigit(c: byte) {
    48 <= c <= 57
  }

  predicate IsSpace(c: byte) {
    c == 32 || 9 <= c <= 13
  }

  /** The number that the leading digits of s continue. */
  function Leading(s: Text, value: nat): nat
    decreases |s|
  {
    if s == [] || !IsDigit(s[0]) then value else Leading(s[1..], 10 * value + (s[0] - 48))
  }

  function SkipSpaces(s: Text): Text
    decreases |s|
  {
    if s != [] && IsSpace(s[0]) then SkipSpaces(s[1..]) else s
  }

  /** atoi as the C library has it: strtol, cut down to 32 bits. */
  function Atoi(s: Text): int32 {
    var t := SkipSpaces(s);
    var minus := t != [] && t[0] == 45;
    var v := Leading(if t != [] && (t[0] == 45 || t[0] == 43) then t[1..] else t, 0);
    var l := if minus then 0 - Min(v, 0x8000_0000_0000_0000) else Min(v, 0x7FFF_FFFF_FFFF_FFFF);
    Signed(l % TWO_32)
  }

  lemma {:induction false} LeadingDigits(ds: seq<Decimal.Digit>)
    ensures forall i :: 0 <= i < |ds| ==> IsDigit(Ascii(ds)[i])
    ensures Leading(Ascii(ds), 0) == Decimal.ValueOf(ds)
  {
    if ds != [] {
      var front, d: int := ds[..|ds| - 1], ds[|ds| - 1];
      LeadingDigits(front);
      assert Ascii(ds) == Ascii(front) + [48 + d];
      LeadingAppend(Ascii(front), 48 + d, 0);
    }
  }

  lemma {:induction false} LeadingAppend(s: Text, c: byte, value: nat)
    requires IsDigit(c) && forall i :: 0 <= i < |s| ==> IsDigit(s[i])
    ensures Leading(s + [c], value) == 10 * Leading(s, value) + (c - 48)
    decreases |s|
  {
    if s == [] {
      assert (s + [c])[1..] == [];
    } else {
      assert (s + [c])[1..] == s[1..] + [c];
      LeadingAppend(s[1..], c, 10 * value + (s[0] - 48));
    }
  }

  lemma {:induction false} AtoiOfDigits(s: Text)
    requires s != [] && IsDigit(s[0]) && Leading(s, 0) < TWO_31
    ensures Atoi(s) == Leading(s, 0)
  {
    assert SkipSpaces(s) == s;
    var v := Leading(s, 0);
    assert v % TWO_32 == v;
  }

  /** A time that fits an int reads back as itself. */
  lemma {:induction false} TimeReadsBack(now: nat)
    requires now < TWO_31
    ensures Atoi(TimeText(now)) == now
  {
    var ds := Decimal.Digits(now);
    LeadingDigits(ds);
    Decimal.DigitsValue(now);
    AtoiOfDigits(TimeText(now));
  }

  /** The text of a time is decimal: its last character is the last digit, and
      those before it are the text of the rest. */
  lemma {:induction false} TimeIsDecimal(now: nat)
    ensures TimeText(now) ==
            (if now < 10 then [] else TimeText(now / 10)) + ['0' as int + now % 10]
  {
    assert Decimal.Digits(now) == (if now < 10 then [] else Decimal.Digits(now / 10)) + [now % 10];
  }

  lemma {:induction false} TimeHasNoSeparator(now: nat)
    ensures AMPERSAND !in TimeText(now)
  {
  }

  // ---- The map as text ----

  /** A std::map in the order of its iterator. */
  type Entries = seq<(Text, Text)>

  ghost predicate DistinctKeys(es: Entries) {
    forall i, j :: 0 <= i < j < |es| ==> es[i].0 != es[j].0
  }

  /** Keys and values that survive the separators. */
  predicate Clean(e: (Text, Text)) {
    AMPERSAND !in e.0 && EQUALS !in e.0 && AMPERSAND !in e.1
  }

  function Entry(e: (Text, Text)): Text {
    e.0 + [EQUALS] + e.1
  }

  function Body(es: Entries): Text {
    if es == [] then [] else Entry(es[0]) + [AMPERSAND] + Body(es[1..])
  }

  /** it->find("="), or the length. */
  function FindEquals(s: Text, from: nat): (r: nat)
    requires from <= |s|
    ensures from <= r <= |s|
    ensures EQUALS !in s[from..r]
    ensures r < |s| ==> s[r] == EQUALS
    decreases |s| - from
  {
    if from == |s| || s[from] == EQUALS then from else FindEquals(s, from + 1)
  }

  /** minfo[it->substr(0, pos)] = it->substr(pos + 1); with npos both are the
      whole string. */
  function Learned(m: map<Text, Text>, field: Text): map<Text, Text> {
    var pos := FindEquals(field, 0);
    m[field[..pos] := if pos < |field| then field[pos + 1..] else field]
  }

  function LearnedAll(m: map<Text, Text>, fields: seq<Text>): map<Text, Text> {
    if fields == [] then m else Learned(LearnedAll(m, fields[..|fields| - 1]), fields[|fields| - 1])
  }

  function AllOf(m: map<Text, Text>, es: Entries): map<Text, Text> {
    if es == [] then m else AllOf(m, es[..|es| - 1])[es[|es| - 1].0 := es[|es| - 1].1]
  }

  lemma {:induction false} EntryIsField(e: (Text, Text))
    requires Clean(e)
    ensures AMPERSAND !in Entry(e) && Entry(e) != []
    ensures FindEquals(Entry(e), 0) == |e.0|
  {
    assert Entry(e)[0..|e.0|] == e.0;
    FindEqualsIs(Entry(e), 0, |e.0|);
  }

  lemma {:induction false} FindEqualsIs(s: Text, from: nat, k: nat)
    requires from <= k < |s| && EQUALS !in s[from..k] && s[k] == EQUALS
    ensures FindEquals(s, from) == k
    decreases |s| - from
  {
    if from < k {
      assert s[from] in s[from..k];
      assert s[from..k][1..] == s[from + 1..k];
      FindEqualsIs(s, from + 1, k);
    }
  }

  lemma {:induction false} EntryIsLearned(m: map<Text, Text>, e: (Text, Text))
    requires Clean(e)
    ensures Learned(m, Entry(e)) == m[e.0 := e.1]
  {
    EntryIsField(e);
    assert Entry(e)[..|e.0|] == e.0 && Entry(e)[|e.0| + 1..] == e.1;
  }

  /** A field without the equals sign becomes a name with itself for its value. */
  lemma {:induction false} BareFieldNamesItself(m: map<Text, Text>, field: Text)
    requires EQUALS !in field
    ensures Learned(m, field) == m[field := field]
  {
    assert field[..|field|] == field;
  }

  function EntryTexts(es: Entries): (r: seq<Text>)
    ensures |r| == |es|
  {
    if es == [] then [] else [Entry(es[0])] + EntryTexts(es[1..])
  }

  lemma {:induction false} BodySplits(es: Entries)
    requires forall e :: e in es ==> Clean(e)
    ensures Fields(Body(es)) == EntryTexts(es)
  {
    if es != [] {
      assert es[0] in es;
      EntryIsField(es[0]);
      FieldsFirst(Entry(es[0]), Body(es[1..]));
      BodySplits(es[1..]);
    }
  }

  lemma {:induction false} EntryTextsLast(es: Entries)
    requires es != []
    ensures var n := |es| - 1;
            EntryTexts(es)[..n] == EntryTexts(es[..n]) && EntryTexts(es)[n] == Entry(es[n])
  {
    var n := |es| - 1;
    if n > 0 {
      EntryTextsLast(es[1..]);
      assert es[1..][..n - 1] == es[..n][1..];
    }
  }

  lemma {:induction false} TextsAreLearned(m: map<Text, Text>, es: Entries)
    requires forall e :: e in es ==> Clean(e)
    ensures LearnedAll(m, EntryTexts(es)) == AllOf(m, es)
  {
    if es != [] {
      var n := |es| - 1;
      EntryTextsLast(es);
      TextsAreLearned(m, es[..n]);
      assert es[n] in es;
      EntryIsLearned(AllOf(m, es[..n]), es[n]);
    }
  }

  /** Joining and splitting give back every clean map. */
  lemma {:induction false} BodyReadsBack(m: map<Text, Text>, es: Entries)
    requires forall e :: e in es ==> Clean(e)
    ensures LearnedAll(m, Fields(Body(es))) == AllOf(m, es)
  {
    BodySplits(es);
    TextsAreLearned(m, es);
  }

  /** For distinct keys the result is a map of exactly the entries, over m. */
  lemma {:induction false} AllOfHasEach(m: map<Text, Text>, es: Entries)
    requires DistinctKeys(es)
    ensures forall i :: 0 <= i < |es| ==> es[i].0 in AllOf(m, es) && AllOf(m, es)[es[i].0] == es[i].1
    ensures forall k :: (forall i :: 0 <= i < |es| ==> es[i].0 != k) ==>
              (k in AllOf(m, es) <==> k in m) && (k in m ==> AllOf(m, es)[k] == m[k])
  {
    if es != [] {
      var front := es[..|es| - 1];
      AllOfHasEach(m, front);
      forall k | forall i :: 0 <= i < |es| ==> es[i].0 != k
        ensures (k in AllOf(m, es) <==> k in m) && (k in m ==> AllOf(m, es)[k] == m[k])
      {
        assert es[|es| - 1].0 != k;
        assert forall i :: 0 <= i < |front| ==> front[i].0 == es[i].0;
      }
      forall i | 0 <= i < |es| - 1 ensures es[i].0 in AllOf(m, es) && AllOf(m, es)[es[i].0] == es[i].1 {
        assert front[i] == es[i];
      }
    }
  }

  // ---- Which maps come back ----

  /** No piece holds the separator. */
  lemma {:induction false} FieldsAvoid(s: Text)
    ensures forall f :: f in Fields(s) ==> AMPERSAND !in f
    decreases |s|
  {
    if s != [] {
      var k := FindAmpersand(s, 0);
      assert s[0..k] == s[..k];
      FieldsAre(s, k, s[..k], if k < |s| then s[k + 1..] else []);
      if k < |s| {
        FieldsAvoid(s[k + 1..]);
      }
    }
  }

  ghost predicate CleanMap(m: map<Text, Text>) {
    forall k :: k in m ==> Clean((k, m[k]))
  }

  lemma {:induction false} LearnedClean(m: map<Text, Text>, field: Text)
    requires CleanMap(m) && AMPERSAND !in field
    ensures CleanMap(Learned(m, field))
  {
    var pos := FindEquals(field, 0);
    assert field[0..pos] == field[..pos];
  }

  lemma {:induction false} LearnedAllClean(m: map<Text, Text>, fields: seq<Text>)
    requires CleanMap(m) && forall f :: f in fields ==> AMPERSAND !in f
    ensures CleanMap(LearnedAll(m, fields))
  {
    if fields != [] {
      var n := |fields| - 1;
      LearnedAllClean(m, fields[..n]);
      assert fields[n] in fields;
      LearnedClean(LearnedAll(m, fields[..n]), fields[n]);
    }
  }

  /** A map comes back through joining and splitting exactly when no key holds a
      separator and no value the ampersand. */
  lemma {:induction false} MapComesBackExactly(es: Entries)
    requires DistinctKeys(es)
    ensures LearnedAll(map[], Fields(Body(es))) == AllOf(map[], es) <==> forall e :: e in es ==> Clean(e)
  {
    if forall e :: e in es ==> Clean(e) {
      BodyReadsBack(map[], es);
    }
    FieldsAvoid(Body(es));
    LearnedAllClean(map[], Fields(Body(es)));
    if CleanMap(AllOf(map[], es)) {
      CleanMapHasCleanEntries(es);
    }
  }

  lemma {:induction false} CleanMapHasCleanEntries(es: Entries)
    requires DistinctKeys(es) && CleanMap(AllOf(map[], es))
    ensures forall e :: e in es ==> Clean(e)
  {
    AllOfHasEach(map[], es);
    forall e | e in es ensures Clean(e) {
      var i :| 0 <= i < |es| && es[i] == e;
      assert es[i].0 in AllOf(map[], es);
    }
  }

  /** A key with the equals sign is cut there and its rest goes to the value. */
  lemma {:induction false} EqualsInKeyIsLost()
    ensures LearnedAll(map[], Fields(Body([([97, EQUALS, 98], [99])]))) == map[[97] := [98, EQUALS, 99]]
  {
    var entry: Text := [97, EQUALS, 98, EQUALS, 99];
    var none: seq<Text> := [];
    assert Body([([97, EQUALS, 98], [99])]) == entry + [AMPERSAND] + [];
    FieldsFirst(entry, []);
    assert FindEquals(entry, 0) == FindEquals(entry, 1) == 1;
    assert entry[..1] == [97] && entry[2..] == [98, EQUALS, 99];
    assert [entry][..0] == none;
  }

  // ---- The token ----

  /** The block cipher under each key string, in either direction. */
  type Keyed = Text -> Block -> Block

  ghost predicate Permutes(enc: Keyed, dec: Keyed) {
    forall k: Text :: Undoes(dec(k), enc(k))
  }

  /** What is base64-encoded a second time. */
  function Inner(enc: Keyed, now: nat, es: Entries): Text {
    TimeText(now) + [AMPERSAND] + Encoded(AesEncrypted(enc(RAW_KEY + TimeText(now)), Body(es)))
  }

  function TokenOf(enc: Keyed, now: nat, es: Entries): Text {
    Encoded(Inner(enc, now, es))
  }

  datatype Check =
    | Accepted(info: map<Text, Text>)
    | TimedOut
    | DecryptFailed
    | OutsideBounds
    | LengthThrown

  function Absolute(x: int): nat {
    if x < 0 then 0 - x else x
  }

  function Checked(dec: Keyed, now: int, timeout: int, token: Text, m: map<Text, Text>): Check {
    var fields := Fields(Decoded(token));
    if |fields| != 2 then DecryptFailed
    else if Absolute(now - Atoi(fields[0])) > timeout then TimedOut
    else
      match AesDecrypted(dec(RAW_KEY + fields[0]), Decoded(fields[1]))
      case Plain(text) => Accepted(LearnedAll(m, Fields(text)))
      case Failed(code) => DecryptFailed
      case OutOfBounds => OutsideBounds
      case Throws => LengthThrown
  }

  method GenerateToken(enc: Keyed, dec: Keyed, keymd5: Text -> Block, now: nat, minfo: Entries) returns (token: Text)
    requires |Body(minfo)| + 16 < TWO_31
    ensures token == TokenOf(enc, now, minfo)
  {
    var tm := TimeText(now);
    var key := RAW_KEY + tm;
    var ss := [];
    var i := 0;
    while i < |minfo|
      invariant i <= |minfo|
      invariant ss + Body(minfo[i..]) == Body(minfo)
    {
      assert minfo[i..][1..] == minfo[i + 1..];
      ss := ss + minfo[i].0 + [EQUALS] + minfo[i].1 + [AMPERSAND];
      i := i + 1;
    }
    assert ss == Body(minfo);
    var _, enctext := AesEncrypt(ss, enc(key), dec(key), keymd5(key));
    var inner := Base64Encode(enctext);
    token := Base64Encode(tm + [AMPERSAND] + inner);
  }

  method CheckToken(enc: Keyed, dec: Keyed, keymd5: Text -> Block, now: int, timeout: int, token: Text,
                    minfo: map<Text, Text>)
      returns (result: Check)
    requires |token| + 16 < TWO_31
    ensures result == Checked(dec, now, timeout, token, minfo)
  {
    var decstr := Base64Decode(token);
    var vstr := Split(decstr);
    if |vstr| != 2 {
      return DecryptFailed;
    }
    if Absolute(now - Atoi(vstr[0])) > timeout {
      return TimedOut;
    }
    var key := RAW_KEY + vstr[0];
    var cipher := Base64Decode(vstr[1]);
    DecodedIsShorter(token);
    FieldsAreShorter(decstr, 1);
    DecodedIsShorter(vstr[1]);
    var rawbody := AesDecrypt(cipher, enc(key), dec(key), keymd5(key));
    match rawbody {
      case Plain(text) =>
        var info := LearnFields(text, minfo);
        result := Accepted(info);
      case Failed(_) => result := DecryptFailed;
      case OutOfBounds => result := OutsideBounds;
      case Throws => result := LengthThrown;
    }
  }

  method LearnFields(text: Text, minfo: map<Text, Text>) returns (info: map<Text, Text>)
    ensures info == LearnedAll(minfo, Fields(text))
  {
    var vstr := Split(text);
    info := minfo;
    var i := 0;
    while i < |vstr|
      invariant i <= |vstr| && info == LearnedAll(minfo, vstr[..i])
    {
      assert vstr[..i + 1][..i] == vstr[..i];
      info := Learned(info, vstr[i]);
      i := i + 1;
    }
    assert vstr[..i] == vstr;
  }

  lemma {:induction false} DecodedIsShorter(t: Text)
    ensures |Decoded(t)| <= |t|
  {
    AfterIsShorter(t, |t| / 4);
  }

  lemma {:induction false} AfterIsShorter(t: Text, g: nat)
    requires 4 * g <= |t|
    ensures |After(t, g).out| <= 3 * g
  {
    if g > 0 {
      AfterIsShorter(t, g - 1);
    }
  }

  lemma {:induction false} FieldsAreShorter(s: Text, i: nat)
    requires i < |Fields(s)|
    ensures |Fields(s)[i]| <= |s|
    decreases |s|
  {
    if s != [] {
      var k := FindAmpersand(s, 0);
      var first := if k > 0 then 1 else 0;
      if i >= first {
        FieldsAreShorter(s[k + 1..], i - first);
      }
    }
  }

  lemma {:induction false} InnerFields(enc: Keyed, now: nat, es: Entries)
    ensures Fields(Inner(enc, now, es)) ==
            [TimeText(now), Encoded(AesEncrypted(enc(RAW_KEY + TimeText(now)), Body(es)))]
  {
    var cipher := AesEncrypted(enc(RAW_KEY + TimeText(now)), Body(es));
    TimeHasNoSeparator(now);
    NoAmpersand(cipher);
    FieldsFirst(TimeText(now), Encoded(cipher));
    FieldsFirst(Encoded(cipher), []);
  }

  /** A token checked within the limit gives back what the joined text splits
      into, for any block permutation; outside the limit it is refused. */
  lemma {:induction false} TokenCarriesBody(enc: Keyed, dec: Keyed, made: nat, now: int, timeout: int,
                                           es: Entries, m: map<Text, Text>)
    requires Permutes(enc, dec) && made < TWO_31 && |Body(es)| < TWO_31
    ensures Checked(dec, now, timeout, TokenOf(enc, made, es), m) ==
            if Absolute(now - made) <= timeout then Accepted(LearnedAll(m, Fields(Body(es)))) else TimedOut
  {
    DecodeUndoesEncode(Inner(enc, made, es));
    InnerFields(enc, made, es);
    TimeReadsBack(made);
    BodyDecrypts(enc, dec, RAW_KEY + TimeText(made), Body(es));
  }

  lemma {:induction false} BodyDecrypts(enc: Keyed, dec: Keyed, key: Text, body: Text)
    requires Permutes(enc, dec) && |body| < TWO_31
    ensures AesDecrypted(dec(key), Decoded(Encoded(AesEncrypted(enc(key), body)))) == Plain(body)
  {
    DecodeUndoesEncode(AesEncrypted(enc(key), body));
    assert Undoes(dec(key), enc(key));
    AesRoundTrip(enc(key), dec(key), body);
  }

  /** For clean entries that is the map the token was made from. */
  lemma {:induction false} TokenRoundTrip(enc: Keyed, dec: Keyed, made: nat, now: int, timeout: int,
                                         es: Entries, m: map<Text, Text>)
    requires Permutes(enc, dec) && made < TWO_31 && |Body(es)| < TWO_31
    requires forall e :: e in es ==> Clean(e)
    ensures Checked(dec, now, timeout, TokenOf(enc, made, es), m) ==
            if Absolute(now - made) <= timeout then Accepted(AllOf(m, es)) else TimedOut
  {
    TokenCarriesBody(enc, dec, made, now, timeout, es, m);
    BodyReadsBack(m, es);
  }

  /** And for no others, within the limit. */
  lemma {:induction false} TokenComesBackExactly(enc: Keyed, dec: Keyed, made: nat, now: int, timeout: int, es: Entries)
    requires Permutes(enc, dec) && made < TWO_31 && |Body(es)| < TWO_31
    requires DistinctKeys(es) && Absolute(now - made) <= timeout
    ensures Checked(dec, now, timeout, TokenOf(enc, made, es), map[]) == Accepted(AllOf(map[], es)) <==>
            forall e :: e in es ==> Clean(e)
  {
    TokenCarriesBody(enc, dec, made, now, timeout, es, map[]);
    MapComesBackExactly(es);
  }

  // ---- Which tokens are refused ----

  /** Text without separators, and some of it. */
  predicate IsField(t: Text) {
    t != [] && AMPERSAND !in t
  }

  /** Fields with a separator behind each. */
  function Separated(fields: seq<Text>): Text {
    if fields == [] then [] else fields[0] + [AMPERSAND] + Separated(fields[1..])
  }

  lemma {:induction false} SeparatedSplits(fields: seq<Text>)
    requires forall t :: t in fields ==> IsField(t)
    ensures Fields(Separated(fields)) == fields
  {
    if fields != [] {
      assert fields[0] in fields;
      SeparatedSplits(fields[1..]);
      FieldsFirst(fields[0], Separated(fields[1..]));
    }
  }

  /** A token of any other number of fields than two is refused, at any time. */
  lemma {:induction false} TokenNeedsTwoFields(dec: Keyed, now: int, timeout: int, fields: seq<Text>,
                                              m: map<Text, Text>)
    requires |fields| != 2 && forall t :: t in fields ==> IsField(t)
    ensures Checked(dec, now, timeout, Encoded(Separated(fields)), m) == DecryptFailed
  {
    DecodeUndoesEncode(Separated(fields));
    SeparatedSplits(fields);
  }

  /** A token of a time and a cipher text. */
  function Assembled(made: nat, cipher: Text): Text {
    Encoded(Separated([TimeText(made), Encoded(cipher)]))
  }

  lemma {:induction false} AssembledFields(made: nat, cipher: Text)
    requires cipher != []
    ensures Fields(Decoded(Assembled(made, cipher))) == [TimeText(made), Encoded(cipher)]
  {
    var fields := [TimeText(made), Encoded(cipher)];
    TimeHasNoSeparator(made);
    NoAmpersand(cipher);
    SeparatedSplits(fields);
    DecodeUndoesEncode(Separated(fields));
  }

  /** A token is out of time exactly when its time is more than the limit before
      or after now. */
  lemma {:induction false} TokenInTime(dec: Keyed, made: nat, now: int, timeout: int, cipher: Text,
                                      m: map<Text, Text>)
    requires made < TWO_31 && cipher != []
    ensures Checked(dec, now, timeout, Assembled(made, cipher), m) == TimedOut <==>
            now < made - timeout || made + timeout < now
  {
    AssembledFields(made, cipher);
    TimeReadsBack(made);
  }

  /** In time, it is what its cipher text comes to under the key of its time. */
  lemma {:induction false} TokenByCipher(dec: Keyed, made: nat, now: int, timeout: int, cipher: Text,
                                        m: map<Text, Text>)
    requires made < TWO_31 && cipher != [] && made - timeout <= now <= made + timeout
    ensures var r := Checked(dec, now, timeout, Assembled(made, cipher), m);
            var a := AesDecrypted(dec(RAW_KEY + TimeText(made)), cipher);
            && (r == OutsideBounds <==> a == OutOfBounds)
            && (r == LengthThrown <==> a == Throws)
            && (r == DecryptFailed <==> a.Failed?)
            && (a.Plain? ==> r == Accepted(LearnedAll(m, Fields(a.text))))
  {
    AssembledFields(made, cipher);
    TimeReadsBack(made);
    DecodeUndoesEncode(cipher);
  }
}

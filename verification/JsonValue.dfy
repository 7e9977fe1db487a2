/** The value tree of clientsdk/json/json_value.cpp.

    Characters stand for the bytes of the C++ strings.  Strings and member
    names are C strings: they end at the first NUL.  An object is a std::map
    ordered by strcmp, modelled as its members in iteration order.  An array is
    modelled by its elements; the reader only ever builds dense ones. */
module JsonValue {

  datatype Member = Member(name: string, value: Value)

  datatype Value =
    | Null
    | Int(i: int)
    | UInt(u: int)
    | Real(r: real)
    | String(s: string)
    | Bool(b: bool)
    | Array(elements: seq<Value>)
    | Object(members: seq<Member>)

  const MIN_INT := -0x8000_0000
  const MAX_INT := 0x7FFF_FFFF
  const MAX_UINT := 0xFFFF_FFFF

  /** What strlen and strcmp see of a std::string. */
  function CString(s: string): string {
    if s == "" || s[0] == '\0' then "" else [s[0]] + CString(s[1..])
  }

  predicate NulFree(s: string) {
    forall i :: 0 <= i < |s| ==> s[i] != '\0'
  }

  lemma {:induction false} CStringOfNulFree(s: string)
    requires NulFree(s)
    ensures CString(s) == s
  {
    if s != "" {
      CStringOfNulFree(s[1..]);
    }
  }

  /** strcmp(a, b) < 0. */
  predicate Less(a: string, b: string) {
    b != "" && (a == "" || a[0] < b[0] || (a[0] == b[0] && Less(a[1..], b[1..])))
  }

  lemma {:induction false} LessAsymmetric(a: string, b: string)
    requires Less(a, b)
    ensures a != b && !Less(b, a)
  {
    if a != "" && a[0] == b[0] {
      LessAsymmetric(a[1..], b[1..]);
    }
  }

  predicate Sorted(ms: seq<Member>) {
    forall i, j :: 0 <= i < j < |ms| ==> Less(ms[i].name, ms[j].name)
  }

  /** The value that operator[](name) refers to: a new null when absent. */
  function Slot(ms: seq<Member>, name: string): Value {
    if ms == [] then Null
    else if ms[0].name == name then ms[0].value
    else Slot(ms[1..], name)
  }

  /** The object once the value behind operator[](name) has become v. */
  function Put(ms: seq<Member>, name: string, v: Value): seq<Member> {
    if ms == [] || Less(name, ms[0].name) then [Member(name, v)] + ms
    else if ms[0].name == name then [Member(name, v)] + ms[1..]
    else [ms[0]] + Put(ms[1..], name, v)
  }

  /** A name after all others goes to the end of the map. */
  lemma {:induction false} PutLast(ms: seq<Member>, name: string, v: Value)
    requires forall i :: 0 <= i < |ms| ==> Less(ms[i].name, name)
    ensures Put(ms, name, v) == ms + [Member(name, v)]
  {
    if ms != [] {
      LessAsymmetric(ms[0].name, name);
      PutLast(ms[1..], name, v);
    }
  }

  /** The representation invariant of a value tree: integers in the range of
      their C++ type, C strings, members in strcmp order. */
  predicate WellFormed(v: Value) {
    match v
    case Int(i) => MIN_INT <= i <= MAX_INT
    case UInt(u) => 0 <= u <= MAX_UINT
    case String(s) => NulFree(s)
    case Array(es) => forall i :: 0 <= i < |es| ==> WellFormed(es[i])
    case Object(ms) =>
      Sorted(ms) && forall i :: 0 <= i < |ms| ==> NulFree(ms[i].name) && WellFormed(ms[i].value)
    case _ => true
  }

  /** isArray() and isObject(): null counts as an empty one of either. */
  predicate IsArray(v: Value) {
    v.Null? || v.Array?
  }

  predicate IsObject(v: Value) {
    v.Null? || v.Object?
  }

  /** No floating-point number anywhere in the tree. */
  predicate RealFree(v: Value) {
    match v
    case Real(_) => false
    case Array(es) => forall i :: 0 <= i < |es| ==> RealFree(es[i])
    case Object(ms) => forall i :: 0 <= i < |ms| ==> RealFree(ms[i].value)
    case _ => true
  }

  // ---- the map stays a map ----

  lemma {:induction false} CStringIsNulFree(s: string)
    ensures NulFree(CString(s))
  {
    if s != "" && s[0] != '\0' {
      CStringIsNulFree(s[1..]);
    }
  }

  /** What a C string keeps: all up to the first NUL. */
  lemma {:induction false} CStringCuts(s: string)
    ensures var c := CString(s); c <= s && NulFree(c) && (c == s || s[|c|] == '\0')
  {
    if s != "" && s[0] != '\0' {
      CStringCuts(s[1..]);
      assert [s[0]] + CString(s[1..]) <= [s[0]] + s[1..] == s;
    }
  }

  lemma {:induction false} LessTotal(a: string, b: string)
    ensures a == b || Less(a, b) || Less(b, a)
  {
    if a != "" && b != "" && a[0] == b[0] {
      LessTotal(a[1..], b[1..]);
      assert a == [a[0]] + a[1..] && b == [b[0]] + b[1..];
    }
  }

  lemma {:induction false} LessTransitive(a: string, b: string, c: string)
    requires Less(a, b) && Less(b, c)
    ensures Less(a, c)
  {
    if a != "" && a[0] == b[0] == c[0] {
      LessTransitive(a[1..], b[1..], c[1..]);
    }
  }

  predicate MembersWellFormed(ms: seq<Member>) {
    forall i :: 0 <= i < |ms| ==> NulFree(ms[i].name) && WellFormed(ms[i].value)
  }

  lemma {:induction false} SlotWellFormed(ms: seq<Member>, name: string)
    requires MembersWellFormed(ms)
    ensures WellFormed(Slot(ms, name))
  {
    if ms != [] && ms[0].name != name {
      SlotWellFormed(ms[1..], name);
    }
  }

  lemma {:induction false} PutWellFormed(ms: seq<Member>, name: string, v: Value)
    requires MembersWellFormed(ms) && NulFree(name) && WellFormed(v)
    ensures MembersWellFormed(Put(ms, name, v))
  {
    if ms != [] && !Less(name, ms[0].name) && ms[0].name != name {
      PutWellFormed(ms[1..], name, v);
    }
  }

  /** Storing under a name keeps the order, changes that name and no other. */
  lemma {:induction false} PutIsMapUpdate(ms: seq<Member>, name: string, v: Value)
    requires Sorted(ms)
    ensures var r := Put(ms, name, v);
            && Sorted(r) && Slot(r, name) == v
            && (forall other :: other != name ==> Slot(r, other) == Slot(ms, other))
            && (forall i :: 0 <= i < |r| ==> r[i].name == name || exists j :: 0 <= j < |ms| && r[i].name == ms[j].name)
  {
    var r := Put(ms, name, v);
    if ms == [] {
    } else if Less(name, ms[0].name) {
      forall j | 1 <= j < |ms| ensures Less(name, ms[j].name) {
        LessTransitive(name, ms[0].name, ms[j].name);
      }
      assert r[1..] == ms;
    } else if ms[0].name == name {
      assert r[1..] == ms[1..];
    } else {
      LessTotal(name, ms[0].name);
      PutIsMapUpdate(ms[1..], name, v);
      var t := Put(ms[1..], name, v);
      assert r[1..] == t && r[0] == ms[0];
    }
  }
}

/** The class StyledWriter of clientsdk/json/json_writer.cpp on trees without
    comments: the layout it picks, and that any layout spells the tokens of the
    tree. */
module JsonStyledWriter {
  import opened JsonLexer
  import opened JsonTokens
  import opened JsonValue
  import opened JsonWriter

  const RIGHT_MARGIN := 74
  const INDENT_SIZE := 3

  /** after continues before with a spelling of toks. */
  predicate Wrote(before: string, after: string, toks: seq<string>) {
    before <= after && Spaced(after[|before|..], toks)
  }

  lemma {:induction false} WroteThen(a: string, b: string, c: string, x: seq<string>, y: seq<string>)
    requires Wrote(a, b, x) && Wrote(b, c, y) && AllSolid(x)
    ensures Wrote(a, c, x + y)
  {
    assert c[|a|..] == b[|a|..] + c[|b|..];
    SpacedAppend(b[|a|..], x, c[|b|..], y);
  }

  lemma {:induction false} WroteText(a: string, text: string, toks: seq<string>)
    requires Spaced(text, toks)
    ensures Wrote(a, a + text, toks)
  {
    assert (a + text)[|a|..] == text;
  }

  predicate AllSpace(s: string) {
    forall i :: 0 <= i < |s| ==> IsSpace(s[i])
  }

  predicate IsNested(v: Value) {
    (v.Array? && v.elements != []) || (v.Object? && v.members != [])
  }

  predicate Writable(v: Value) {
    Printable(v) && RealFree(v)
  }

  predicate AllWritable(es: seq<Value>) {
    forall i :: 0 <= i < |es| ==> Writable(es[i])
  }

  /** The text of a value that fits on one line by itself. */
  function Compact(v: Value): string
    requires RealFree(v)
  {
    Join(Tokens(v))
  }

  function CompactLength(es: seq<Value>): nat
    requires AllWritable(es)
  {
    if es == [] then 0 else CompactLength(es[..|es| - 1]) + |Compact(es[|es| - 1])|
  }

  /** When an array is spread over several lines. */
  predicate IsMultiline(es: seq<Value>)
    requires AllWritable(es)
  {
    || |es| * 3 >= RIGHT_MARGIN
    || (exists i :: 0 <= i < |es| && IsNested(es[i]))
    || 4 + (|es| - 1) * 2 + CompactLength(es) >= RIGHT_MARGIN
  }

  // ---- the layout ----

  /** A new line at the indent, unless the text already ends in a blank. */
  function Indented(doc: string, indent: string): string {
    if doc == "" then indent
    else if doc[|doc| - 1] == ' ' then doc
    else (if doc[|doc| - 1] == '\n' then doc else doc + "\n") + indent
  }

  const TAB: string := "   "

  /** The text after a value: on one line if it is a scalar, empty, or a short
      array of such; otherwise between brackets on lines of their own. */
  function Styled(doc: string, indent: string, v: Value): string
    requires Writable(v)
    decreases v, 1
  {
    if !IsNested(v) then doc + Compact(v)
    else if v.Array? && !IsMultiline(v.elements) then doc + "[ " + OneLine(v.elements, true) + " ]"
    else if v.Array? then
      Indented(StyledElements(Indented(doc, indent) + "[", indent + TAB, v.elements), indent) + "]"
    else Indented(StyledMembers(Indented(doc, indent) + "{", indent + TAB, v.members), indent) + "}"
  }

  /** Each element on a line of its own. */
  function StyledElements(doc: string, indent: string, es: seq<Value>): string
    requires AllWritable(es)
    decreases es
  {
    if es == [] then doc
    else
      var d := Styled(Indented(doc, indent), indent, es[0]);
      StyledElements(if |es| > 1 then d + "," else d, indent, es[1..])
  }

  /** Each member on a line of its own, its value behind its name. */
  function StyledMembers(doc: string, indent: string, ms: seq<Member>): string
    requires Writable(Object(ms))
    decreases ms
  {
    if ms == [] then doc
    else
      var d := Styled(Indented(doc, indent) + Quote(ms[0].name) + " : ", indent, ms[0].value);
      StyledMembers(if |ms| > 1 then d + "," else d, indent, ms[1..])
  }

  function OneLine(es: seq<Value>, first: bool): string
    requires AllWritable(es)
  {
    if es == [] then "" else (if first then "" else ", ") + Compact(es[0]) + OneLine(es[1..], false)
  }

  // ---- the layout spells the tokens ----

  lemma {:induction false} IndentedWrites(doc: string, indent: string)
    requires AllSpace(indent)
    ensures Wrote(doc, Indented(doc, indent), [])
  {
    SpacedBlank(Indented(doc, indent)[|doc|..]);
  }

  /** Text on a line of its own. */
  lemma {:induction false} IndentedThen(doc: string, indent: string, text: string, toks: seq<string>)
    requires AllSpace(indent) && Spaced(text, toks)
    ensures Wrote(doc, Indented(doc, indent) + text, toks)
  {
    IndentedWrites(doc, indent);
    WroteText(Indented(doc, indent), text, toks);
    WroteThen(doc, Indented(doc, indent), Indented(doc, indent) + text, [], toks);
    assert [] + toks == toks;
  }

  lemma {:induction false} StyledSpells(doc: string, indent: string, v: Value)
    requires Writable(v) && AllSpace(indent)
    ensures Wrote(doc, Styled(doc, indent, v), Tokens(v))
    decreases v, 1
  {
    if !IsNested(v) {
      TokensSolid(v);
      SpacedJoin(Tokens(v));
      WroteText(doc, Compact(v), Tokens(v));
    } else if v.Array? && !IsMultiline(v.elements) {
      OneLineSpells(v.elements);
      var line := "[ " + OneLine(v.elements, true) + " ]";
      WroteText(doc, line, Tokens(v));
      assert doc + line == doc + "[ " + OneLine(v.elements, true) + " ]";
    } else if v.Array? {
      var open := Indented(doc, indent) + "[";
      ElementsSpell(open, indent + TAB, v.elements);
      ElementTokensSolid(v.elements);
      Enclosed(doc, open, StyledElements(open, indent + TAB, v.elements), indent, "[", ElementTokens(v.elements), "]");
    } else {
      var open := Indented(doc, indent) + "{";
      MembersSpell(open, indent + TAB, v.members);
      MemberTokensSolid(v.members);
      Enclosed(doc, open, StyledMembers(open, indent + TAB, v.members), indent, "{", MemberTokens(v.members), "}");
    }
  }

  lemma {:induction false} Enclosed(doc: string, open: string, inside: string, indent: string,
                                    left: string, toks: seq<string>, right: string)
    requires open == Indented(doc, indent) + left && Wrote(open, inside, toks) && AllSpace(indent)
    requires Solid(left) && AllSolid(toks) && Solid(right)
    ensures Wrote(doc, Indented(inside, indent) + right, [left] + toks + [right])
  {
    SpacedToken(left);
    IndentedThen(doc, indent, left, [left]);
    SpacedToken(right);
    IndentedThen(inside, indent, right, [right]);
    WroteThen(doc, open, inside, [left], toks);
    WroteThen(doc, inside, Indented(inside, indent) + right, [left] + toks, [right]);
  }

  lemma {:induction false} ElementsSpell(doc: string, indent: string, es: seq<Value>)
    requires AllWritable(es) && AllSpace(indent)
    ensures Wrote(doc, StyledElements(doc, indent, es), ElementTokens(es))
    decreases es
  {
    if es == [] {
      SpacedBlank("");
    } else {
      var line := Indented(doc, indent);
      var d, toks := Styled(line, indent, es[0]), Tokens(es[0]);
      IndentedWrites(doc, indent);
      StyledSpells(line, indent, es[0]);
      WroteThen(doc, line, d, [], toks);
      assert [] + toks == toks;
      TokensSolid(es[0]);
      if |es| > 1 {
        ElementsSpell(d + ",", indent, es[1..]);
        CommaThen(doc, d, StyledElements(d + ",", indent, es[1..]), toks, ElementTokens(es[1..]));
      } else {
        assert StyledElements(d, indent, es[1..]) == d;
      }
    }
  }

  /** A comma between what was written and what follows. */
  lemma {:induction false} CommaThen(a: string, b: string, c: string, x: seq<string>, y: seq<string>)
    requires Wrote(a, b, x) && Wrote(b + ",", c, y) && AllSolid(x)
    ensures Wrote(a, c, x + [","] + y) && Wrote(a, c, x + ([","] + y))
  {
    SpacedToken(",");
    WroteText(b, ",", [","]);
    WroteThen(a, b, b + ",", x, [","]);
    WroteThen(a, b + ",", c, x + [","], y);
    Reassociate(x, [","], y);
  }

  lemma {:induction false} MembersSpell(doc: string, indent: string, ms: seq<Member>)
    requires Writable(Object(ms)) && AllSpace(indent)
    ensures Wrote(doc, StyledMembers(doc, indent, ms), MemberTokens(ms))
    decreases ms
  {
    if ms == [] {
      SpacedBlank("");
    } else {
      var m := [Quote(ms[0].name), ":"] + Tokens(ms[0].value);
      var named := Indented(doc, indent) + Quote(ms[0].name) + " : ";
      var d := Styled(named, indent, ms[0].value);
      NameSpells(doc, indent, ms[0].name);
      StyledSpells(named, indent, ms[0].value);
      WroteThen(doc, named, d, [Quote(ms[0].name), ":"], Tokens(ms[0].value));
      TokensSolid(ms[0].value);
      if |ms| > 1 {
        MembersSpell(d + ",", indent, ms[1..]);
        CommaThen(doc, d, StyledMembers(d + ",", indent, ms[1..]), m, MemberTokens(ms[1..]));
      } else {
        assert StyledMembers(d, indent, ms[1..]) == d;
        assert MemberTokens(ms) == m + [] == m;
      }
    }
  }

  lemma {:induction false} NameSpells(doc: string, indent: string, name: string)
    requires AllSpace(indent)
    ensures Wrote(doc, Indented(doc, indent) + Quote(name) + " : ", [Quote(name), ":"])
    ensures AllSolid([Quote(name), ":"])
  {
    var line := Indented(doc, indent) + Quote(name);
    SpacedToken(Quote(name));
    IndentedThen(doc, indent, Quote(name), [Quote(name)]);
    Mark(" : ", ":");
    WroteText(line, " : ", [":"]);
    WroteThen(doc, line, line + " : ", [Quote(name)], [":"]);
    assert [Quote(name)] + [":"] == [Quote(name), ":"];
  }

  lemma {:induction false} OneLineSpells(es: seq<Value>)
    requires AllWritable(es) && es != []
    ensures Spaced("[ " + OneLine(es, true) + " ]", Tokens(Array(es)))
  {
    Mark("[ ", "[");
    Mark(" ]", "]");
    OneLineRest(es, true);
    ElementTokensSolid(es);
    assert [] + ElementTokens(es) == ElementTokens(es);
    assert AllSolid(["["]) && AllSolid(["["] + ElementTokens(es));
    SpacedAppend("[ ", ["["], OneLine(es, true), ElementTokens(es));
    SpacedAppend("[ " + OneLine(es, true), ["["] + ElementTokens(es), " ]", ["]"]);
  }

  lemma {:induction false} OneLineRest(es: seq<Value>, first: bool)
    requires AllWritable(es) && es != []
    ensures Spaced(OneLine(es, first), (if first then [] else [","]) + ElementTokens(es))
  {
    var lead, toks := if first then [] else [","], Tokens(es[0]);
    var text := (if first then "" else ", ") + Compact(es[0]);
    OneElementSpells(es[0], first);
    TokensSolid(es[0]);
    if |es| > 1 {
      OneLineRest(es[1..], false);
      assert AllSolid(lead + toks);
      SpacedAppend(text, lead + toks, OneLine(es[1..], false), [","] + ElementTokens(es[1..]));
      Reassociate(toks, [","], ElementTokens(es[1..]));
      Reassociate(lead, toks, [","] + ElementTokens(es[1..]));
    } else {
      assert OneLine(es, first) == text + "" == text;
    }
  }

  lemma {:induction false} OneElementSpells(v: Value, first: bool)
    requires Writable(v)
    ensures Spaced((if first then "" else ", ") + Compact(v), (if first then [] else [","]) + Tokens(v))
  {
    TokensSolid(v);
    SpacedJoin(Tokens(v));
    if first {
      assert "" + Compact(v) == Compact(v) && [] + Tokens(v) == Tokens(v);
    } else {
      Mark(", ", ",");
      SpacedAppend(", ", [","], Compact(v), Tokens(v));
    }
  }

  /** A punctuation mark with a blank before or after it, or both. */
  lemma {:induction false} Mark(text: string, mark: string)
    requires |mark| == 1 && !IsSpace(mark[0])
    requires text == mark + " " || text == " " + mark || text == " " + mark + " "
    ensures Spaced(text, [mark])
  {
    SpacedToken(mark);
    SpacedBlank(" ");
    SpacedAppend(mark, [mark], " ", []);
    SpacedAppend(" ", [], mark, [mark]);
    SpacedAppend(" " + mark, [mark], " ", []);
    assert [mark] + [] == [mark] && [] + [mark] == [mark];
  }

  lemma {:induction false} EmptyCompact(v: Value, open: string, close: string, text: string)
    requires RealFree(v) && Tokens(v) == [open, close] && text == open + close
    ensures Compact(v) == text
  {
    assert [open, close] == [open] + [close];
    JoinAppend([open], [close]);
    JoinOne(open);
    JoinOne(close);
  }

  /** The line length that the choice of layout goes by is that of the line, so
      an array on one line is shorter than the margin, without its indent. */
  lemma {:induction false} OneLineFits(es: seq<Value>)
    requires AllWritable(es) && es != []
    ensures var line := "[ " + OneLine(es, true) + " ]";
            && |line| == 4 + (|es| - 1) * 2 + CompactLength(es)
            && (!IsMultiline(es) ==> |line| < RIGHT_MARGIN)
  {
    OneLineLength(es, true);
  }

  lemma {:induction false} OneLineLength(es: seq<Value>, first: bool)
    requires AllWritable(es) && es != []
    ensures |OneLine(es, first)| == CompactLength(es) + 2 * (if first then |es| - 1 else |es|)
  {
    CompactLengthFirst(es);
    if |es| > 1 {
      OneLineLength(es[1..], false);
    }
  }

  lemma {:induction false} CompactLengthFirst(es: seq<Value>)
    requires AllWritable(es) && es != []
    ensures CompactLength(es) == |Compact(es[0])| + CompactLength(es[1..])
  {
    if |es| > 1 {
      var n := |es| - 1;
      CompactLengthFirst(es[..n]);
      assert es[..n][1..] == es[1..][..n - 1];
    }
  }

  /** One more element of the line. */
  lemma {:induction false} OneLineNext(es: seq<Value>, k: nat, doc: string, sep: string, doc': string)
    requires AllWritable(es) && k < |es| && sep == (if k > 0 then ", " else "") && doc' == doc + sep + Compact(es[k])
    ensures doc' + OneLine(es[k + 1..], false) == doc + OneLine(es[k..], k == 0)
  {
    assert es[k..][1..] == es[k + 1..];
    Reassociate(doc, sep + Compact(es[k]), OneLine(es[k + 1..], false));
    Reassociate(doc, sep, Compact(es[k]));
  }

  /** One more element of an array on several lines. */
  lemma {:induction false} StyledElementsNext(es: seq<Value>, k: nat, doc: string, indent: string, d: string)
    requires AllWritable(es) && k < |es| && d == Styled(Indented(doc, indent), indent, es[k])
    ensures StyledElements(doc, indent, es[k..])
            == if k + 1 < |es| then StyledElements(d + ",", indent, es[k + 1..]) else d
  {
    assert es[k..][1..] == es[k + 1..];
  }

  /** One more member of an object. */
  lemma {:induction false} StyledMembersNext(ms: seq<Member>, k: nat, doc: string, indent: string, d: string)
    requires Writable(Object(ms)) && k < |ms|
    requires d == Styled(Indented(doc, indent) + Quote(ms[k].name) + " : ", indent, ms[k].value)
    ensures StyledMembers(doc, indent, ms[k..])
            == if k + 1 < |ms| then StyledMembers(d + ",", indent, ms[k + 1..]) else d
  {
    assert ms[k..][1..] == ms[k + 1..];
  }

  class StyledWriter {
    var document: string
    var indentString: string
    var childValues: seq<string>
    var addChildValues: bool

    constructor ()
    {
      document, indentString, childValues, addChildValues := "", "", [], false;
    }

    method Write(root: Value) returns (text: string)
      requires Writable(root)
      modifies this
      ensures text == Styled("", "", root) + "\n" && Spaced(text, Tokens(root))
    {
      document, addChildValues, indentString := "", false, "";
      WriteValue(root);
      WholeSpells(root);
      document := document + "\n";
      return document;
    }

    static lemma {:induction false} WholeSpells(root: Value)
      requires Writable(root)
      ensures Spaced(Styled("", "", root) + "\n", Tokens(root))
    {
      var doc := Styled("", "", root);
      StyledSpells("", "", root);
      TokensSolid(root);
      assert doc[0..] == doc;
      SpacedBlank("\n");
      SpacedAppend(doc, Tokens(root), "\n", []);
      assert Tokens(root) + [] == Tokens(root);
    }

    method PushValue(text: string)
      modifies this`document, this`childValues
      ensures addChildValues ==> childValues == old(childValues) + [text] && document == old(document)
      ensures !addChildValues ==> childValues == old(childValues) && document == old(document) + text
    {
      if addChildValues {
        childValues := childValues + [text];
      } else {
        document := document + text;
      }
    }

    method WriteIndent()
      modifies this`document
      ensures document == Indented(old(document), indentString)
    {
      if document != "" {
        var last := document[|document| - 1];
        if last == ' ' {
          return;
        }
        if last != '\n' {
          document := document + "\n";
        }
      }
      document := document + indentString;
    }

    method WriteWithIndent(text: string)
      modifies this`document
      ensures document == Indented(old(document), indentString) + text
    {
      WriteIndent();
      document := document + text;
    }

    method Indent()
      modifies this`indentString
      ensures indentString == old(indentString) + TAB
    {
      indentString := indentString + "   ";
    }

    method Unindent()
      requires |indentString| >= INDENT_SIZE
      modifies this`indentString
      ensures indentString == old(indentString)[..|old(indentString)| - INDENT_SIZE]
    {
      indentString := indentString[..|indentString| - INDENT_SIZE];
    }

    /** Writes a value, or in collecting mode pushes its one-line text. */
    method WriteValue(v: Value)
      requires Writable(v) && (addChildValues ==> !IsNested(v))
      modifies this
      ensures indentString == old(indentString) && addChildValues == old(addChildValues)
      ensures addChildValues ==> document == old(document) && childValues == old(childValues) + [Compact(v)]
      ensures !addChildValues ==> document == Styled(old(document), indentString, v)
      decreases v, 1
    {
      if v.Array? {
        WriteArrayValue(v.elements);
      } else if v.Object? && v.members == [] {
        EmptyCompact(v, "{", "}", "{}");
        PushValue("{}");
      } else if v.Object? {
        WriteMembers(v.members);
      } else {
        var text := ScalarToString(v);
        JoinOne(text);
        PushValue(text);
      }
    }

    // ---- arrays ----

    method WriteArrayValue(es: seq<Value>)
      requires AllWritable(es) && (addChildValues ==> es == [])
      modifies this
      ensures indentString == old(indentString) && addChildValues == old(addChildValues)
      ensures addChildValues ==> document == old(document) && childValues == old(childValues) + [Compact(Array(es))]
      ensures !addChildValues ==> document == Styled(old(document), indentString, Array(es))
      decreases es, 3
    {
      if es == [] {
        EmptyCompact(Array(es), "[", "]", "[]");
        PushValue("[]");
        return;
      }
      var isArrayMultiLine := IsMultineArray(es);
      if isArrayMultiLine {
        WriteElementsOnLines(es);
      } else {
        WriteElementsOnOneLine(es);
      }
    }

    /** The one-line texts of the elements collected so far. */
    predicate Collected(es: seq<Value>)
      requires AllWritable(es)
      reads this
    {
      |childValues| == |es| && forall i :: 0 <= i < |es| ==> childValues[i] == Compact(es[i]) && !IsNested(es[i])
    }

    method IsMultineArray(es: seq<Value>) returns (isMultiLine: bool)
      requires AllWritable(es) && es != [] && !addChildValues
      modifies this
      ensures indentString == old(indentString) && !addChildValues && document == old(document)
      ensures isMultiLine <==> IsMultiline(es)
      ensures childValues != [] || !isMultiLine ==> Collected(es)
      decreases es, 1
    {
      var size := |es|;
      isMultiLine := size * 3 >= RIGHT_MARGIN;
      childValues := [];
      var index := 0;
      while index < size && !isMultiLine
        invariant 0 <= index <= size
        invariant isMultiLine <==> size * 3 >= RIGHT_MARGIN || exists i :: 0 <= i < index && IsNested(es[i])
        decreases size - index
      {
        isMultiLine := isMultiLine || IsNested(es[index]);
        index := index + 1;
      }
      if !isMultiLine {
        var lineLength := CollectChildValues(es);
        isMultiLine := lineLength >= RIGHT_MARGIN;
      }
    }

    /** The second half of isMultineArray: the one-line texts and their line length. */
    method CollectChildValues(es: seq<Value>) returns (lineLength: int)
      requires AllWritable(es) && es != [] && !addChildValues && childValues == []
      requires forall i :: 0 <= i < |es| ==> !IsNested(es[i])
      modifies this
      ensures indentString == old(indentString) && !addChildValues && document == old(document)
      ensures Collected(es) && lineLength == 4 + (|es| - 1) * 2 + CompactLength(es)
      decreases es, 0
    {
      addChildValues := true;
      lineLength := 4 + (|es| - 1) * 2;
      for index := 0 to |es|
        invariant addChildValues && indentString == old(indentString) && document == old(document)
        invariant |childValues| == index && forall i :: 0 <= i < index ==> childValues[i] == Compact(es[i])
        invariant lineLength == 4 + (|es| - 1) * 2 + CompactLength(es[..index])
      {
        WriteValue(es[index]);
        assert es[..index + 1][..index] == es[..index];
        lineLength := lineLength + |childValues[index]|;
      }
      assert es[..|es|] == es;
      addChildValues := false;
    }

    method WriteElementsOnLines(es: seq<Value>)
      requires AllWritable(es) && es != [] && !addChildValues && IsMultiline(es)
      requires childValues != [] ==> Collected(es)
      modifies this
      ensures indentString == old(indentString) && !addChildValues
      ensures document == Styled(old(document), indentString, Array(es))
      decreases es, 2
    {
      WriteWithIndent("[");
      Indent();
      WriteLines(es);
      Unindent();
      WriteWithIndent("]");
    }

    /** The loop of it. */
    method WriteLines(es: seq<Value>)
      requires AllWritable(es) && es != [] && !addChildValues
      requires childValues != [] ==> Collected(es)
      modifies this
      ensures indentString == old(indentString) && !addChildValues
      ensures document == StyledElements(old(document), indentString, es)
      decreases es, 1
    {
      assert es[0..] == es;
      var hasChildValue := childValues != [];
      var index := 0;
      while true
        invariant 0 <= index < |es| && !addChildValues && indentString == old(indentString)
        invariant hasChildValue ==> Collected(es)
        invariant StyledElements(document, indentString, es[index..])
                  == StyledElements(old(document), indentString, es)
        decreases |es| - index
      {
        ghost var before := document;
        WriteElement(es, index, hasChildValue);
        StyledElementsNext(es, index, before, indentString, document);
        index := index + 1;
        if index == |es| {
          break;
        }
        document := document + ",";
      }
    }

    /** One element on its line, from its collected text if there are any. */
    method WriteElement(es: seq<Value>, index: nat, hasChildValue: bool)
      requires AllWritable(es) && index < |es| && !addChildValues
      requires hasChildValue ==> Collected(es)
      modifies this
      ensures indentString == old(indentString) && !addChildValues
      ensures hasChildValue ==> childValues == old(childValues)
      ensures document == Styled(Indented(old(document), indentString), indentString, es[index])
      decreases es, 0
    {
      if hasChildValue {
        WriteWithIndent(childValues[index]);
      } else {
        WriteIndent();
        WriteValue(es[index]);
      }
    }

    method WriteElementsOnOneLine(es: seq<Value>)
      requires AllWritable(es) && es != [] && Collected(es) && !IsMultiline(es)
      modifies this`document
      ensures document == Styled(old(document), indentString, Array(es))
    {
      document := document + "[ ";
      ghost var all := document + OneLine(es, true);
      assert es[0..] == es;
      for index := 0 to |es|
        invariant document + OneLine(es[index..], index == 0) == all
      {
        ghost var before := document;
        if index > 0 {
          document := document + ", ";
        }
        document := document + childValues[index];
        assert before + "" == before;
        OneLineNext(es, index, before, if index > 0 then ", " else "", document);
      }
      assert document + "" == document;
      document := document + " ]";
    }

    // ---- objects ----

    method WriteMembers(ms: seq<Member>)
      requires Writable(Object(ms)) && ms != [] && !addChildValues
      modifies this
      ensures indentString == old(indentString) && !addChildValues
      ensures document == Styled(old(document), indentString, Object(ms))
      decreases ms, 1
    {
      WriteWithIndent("{");
      Indent();
      WriteMemberLines(ms);
      Unindent();
      WriteWithIndent("}");
    }

    /** The loop of it. */
    method WriteMemberLines(ms: seq<Member>)
      requires Writable(Object(ms)) && ms != [] && !addChildValues
      modifies this
      ensures indentString == old(indentString) && !addChildValues
      ensures document == StyledMembers(old(document), indentString, ms)
      decreases ms, 0
    {
      assert ms[0..] == ms;
      var index := 0;
      while true
        invariant 0 <= index < |ms| && !addChildValues && indentString == old(indentString)
        invariant StyledMembers(document, indentString, ms[index..])
                  == StyledMembers(old(document), indentString, ms)
        decreases |ms| - index
      {
        ghost var before := document;
        WriteName(ms[index].name);
        WriteValue(ms[index].value);
        StyledMembersNext(ms, index, before, indentString, document);
        index := index + 1;
        if index == |ms| {
          break;
        }
        document := document + ",";
      }
    }

    method WriteName(name: string)
      modifies this`document
      ensures document == Indented(old(document), indentString) + Quote(name) + " : "
    {
      var quoted := ValueToQuotedString(name);
      WriteWithIndent(quoted);
      document := document + " : ";
    }
  }
}

/** The lines that StyledWriter writes, as a list: what starts each of them, how
    deep it is indented, and how many there are. */
module JsonLayout {
  import opened JsonStyledWriter
  import opened JsonTokens
  import opened JsonValue
  import opened JsonWriter

  function Blanks(n: nat): (r: string)
    ensures |r| == n && forall i :: 0 <= i < n ==> r[i] == ' '
  {
    seq(n, _ => ' ')
  }

  // ---- lines ----

  /** Non-nested values with a comma and a blank between them. */
  function Listed(es: seq<Value>): string
    requires AllWritable(es)
  {
    if es == [] then "" else Compact(es[0]) + if |es| == 1 then "" else ", " + Listed(es[1..])
  }

  /** The lines of a value at a depth; the first one goes on where the text ends. */
  function Lines(v: Value, depth: nat): (r: seq<string>)
    requires Writable(v)
    ensures r != []
    decreases v, 1
  {
    if !IsNested(v) then [Compact(v)]
    else if v.Array? && !IsMultiline(v.elements) then ["[ " + Listed(v.elements) + " ]"]
    else if v.Array? then ["["] + ElementLines(v.elements, depth + 1) + [Blanks(3 * depth) + "]"]
    else ["{"] + MemberLines(v.members, depth + 1) + [Blanks(3 * depth) + "}"]
  }

  /** Each element begins a line of its own. */
  function ElementLines(es: seq<Value>, depth: nat): seq<string>
    requires AllWritable(es)
    decreases es
  {
    if es == [] then []
    else Item(Blanks(3 * depth), Lines(es[0], depth), |es| > 1) + ElementLines(es[1..], depth)
  }

  /** Each member begins a line of its own with its name. */
  function MemberLines(ms: seq<Member>, depth: nat): seq<string>
    requires Writable(Object(ms))
    decreases ms
  {
    if ms == [] then []
    else
      Item(Blanks(3 * depth) + Quote(ms[0].name) + " : ", Lines(ms[0].value, depth), |ms| > 1)
      + MemberLines(ms[1..], depth)
  }

  /** Lines with something before the first and, if more follow, a comma behind the last. */
  function Item(lead: string, lines: seq<string>, more: bool): (r: seq<string>)
    requires lines != []
    ensures |r| == |lines|
  {
    Closed([lead + lines[0]] + lines[1..], more)
  }

  function Closed(lines: seq<string>, more: bool): (r: seq<string>)
    requires lines != []
    ensures |r| == |lines|
  {
    if more then lines[..|lines| - 1] + [lines[|lines| - 1] + ","] else lines
  }

  /** Each line behind a line feed. */
  function Below(lines: seq<string>): string {
    if lines == [] then "" else "\n" + lines[0] + Below(lines[1..])
  }

  /** The text of lines. */
  function Text(lines: seq<string>): string
    requires lines != []
  {
    lines[0] + Below(lines[1..])
  }

  lemma {:induction false} BelowAppend(a: seq<string>, b: seq<string>)
    ensures Below(a + b) == Below(a) + Below(b)
  {
    if a == [] {
      assert a + b == b;
    } else {
      assert (a + b)[1..] == a[1..] + b;
      BelowAppend(a[1..], b);
      Reassociate("\n" + a[0], Below(a[1..]), Below(b));
    }
  }

  lemma {:induction false} BelowOne(line: string)
    ensures Below([line]) == "\n" + line
  {
    assert Below([line]) == "\n" + line + Below([]);
  }

  /** A comma behind the last line is one behind the text. */
  lemma {:induction false} BelowClosed(lines: seq<string>, more: bool)
    requires lines != []
    ensures Below(Closed(lines, more)) == Below(lines) + if more then "," else ""
  {
    if more {
      var n := |lines| - 1;
      var init, last := lines[..n], lines[n];
      assert lines == init + [last];
      BelowAppend(init, [last]);
      BelowAppend(init, [last + ","]);
      BelowOne(last);
      BelowOne(last + ",");
      assert "\n" + (last + ",") == "\n" + last + ",";
      Reassociate(Below(init), "\n" + last, ",");
    }
  }

  lemma {:induction false} BelowItem(lead: string, lines: seq<string>, more: bool)
    requires lines != []
    ensures Below(Item(lead, lines, more)) == "\n" + lead + Text(lines) + if more then "," else ""
  {
    BelowClosed([lead + lines[0]] + lines[1..], more);
    assert ([lead + lines[0]] + lines[1..])[1..] == lines[1..];
    assert "\n" + (lead + lines[0]) + Below(lines[1..]) == "\n" + lead + Text(lines);
  }

  // ---- how texts end ----

  predicate EndsSolid(s: string) {
    s != "" && s[|s| - 1] != ' ' && s[|s| - 1] != '\n'
  }

  lemma {:induction false} SolidAppend(a: string, b: string)
    requires EndsSolid(b)
    ensures EndsSolid(a + b)
  {
  }

  /** No line feed and no blank at the end. */
  lemma {:induction false} ScalarText(v: Value)
    requires Writable(v) && !IsNested(v)
    ensures EndsSolid(Compact(v)) && '\n' !in Compact(v)
  {
    if v.Array? || v.Object? {
      assert ElementTokens([]) == [] && MemberTokens([]) == [];
      var t := Tokens(v);
      assert |t| == 2 && t[1..] == [t[1]];
      JoinOne(t[1]);
      assert Join(t) == t[0] + t[1];
    } else {
      JoinOne(Tokens(v)[0]);
      assert Tokens(v) == [Tokens(v)[0]];
      if v.String? {
        QuoteHasNoFeed(v.s);
      } else if v.Int? {
        IntTextIsDigits(v.i);
      } else if v.UInt? {
        IntTextIsDigits(v.u);
      }
    }
  }

  lemma {:induction false} IntTextIsDigits(n: int)
    ensures EndsSolid(IntText(n)) && '\n' !in IntText(n)
  {
  }

  lemma {:induction false} EscapeHasNoFeed(s: string)
    ensures '\n' !in Escape(s)
  {
    if s != "" {
      EscapeHasNoFeed(s[1..]);
      assert '\n' !in EscapeChar(s[0]);
    }
  }

  lemma {:induction false} QuoteHasNoFeed(s: string)
    ensures EndsSolid(Quote(s)) && '\n' !in Quote(s)
  {
    EscapeHasNoFeed(s);
  }

  // ---- the layout is those lines ----

  lemma {:induction false} OneLineIsListed(es: seq<Value>)
    requires AllWritable(es) && es != []
    ensures OneLine(es, true) == Listed(es) && OneLine(es, false) == ", " + Listed(es)
  {
    var first := Compact(es[0]);
    assert "" + first == first;
    if |es| == 1 {
      assert OneLine(es[1..], false) == "";
      assert first + "" == first && ", " + first + "" == ", " + first;
    } else {
      OneLineIsListed(es[1..]);
      Reassociate(", ", first, ", " + Listed(es[1..]));
    }
  }

  /** Where a value may begin: at the very start, or behind a blank. */
  predicate Ready(doc: string, depth: nat) {
    if doc == "" then depth == 0 else doc[|doc| - 1] == ' '
  }

  lemma {:induction false} ReadyStays(doc: string, depth: nat)
    requires Ready(doc, depth)
    ensures Indented(doc, Blanks(3 * depth)) == doc
  {
  }

  /** A new line at the indent. */
  lemma {:induction false} NewLine(doc: string, indent: string)
    requires EndsSolid(doc)
    ensures Indented(doc, indent) == doc + ("\n" + indent)
  {
  }

  lemma {:induction false} Deeper(depth: nat)
    ensures Blanks(3 * depth) + TAB == Blanks(3 * (depth + 1))
  {
  }

  /** The text that StyledWriter writes is those lines. */
  lemma {:induction false} StyledIsLines(doc: string, depth: nat, v: Value)
    requires Writable(v) && Ready(doc, depth)
    ensures Styled(doc, Blanks(3 * depth), v) == doc + Text(Lines(v, depth))
    ensures EndsSolid(Text(Lines(v, depth)))
    decreases v, 1
  {
    if !IsNested(v) {
      ScalarText(v);
      TextOfOne(Compact(v));
    } else if v.Array? && !IsMultiline(v.elements) {
      ShortArrayIsLine(doc, v.elements);
    } else if v.Array? {
      ArrayIsLines(doc, depth, v.elements);
    } else {
      ObjectIsLines(doc, depth, v.members);
    }
  }

  lemma {:induction false} TextOfOne(line: string)
    ensures Text([line]) == line
  {
    assert line + "" == line;
  }

  lemma {:induction false} ShortArrayIsLine(doc: string, es: seq<Value>)
    requires AllWritable(es) && es != []
    ensures var line := "[ " + Listed(es) + " ]";
            doc + "[ " + OneLine(es, true) + " ]" == doc + Text([line]) && EndsSolid(Text([line]))
  {
    OneLineIsListed(es);
    TextOfOne("[ " + Listed(es) + " ]");
    Reassociate(doc, "[ " + Listed(es), " ]");
    Reassociate(doc, "[ ", Listed(es));
  }

  lemma {:induction false} ArrayIsLines(doc: string, depth: nat, es: seq<Value>)
    requires AllWritable(es) && Ready(doc, depth)
    ensures var indent := Blanks(3 * depth);
            var text := Text(["["] + ElementLines(es, depth + 1) + [indent + "]"]);
            && Indented(StyledElements(Indented(doc, indent) + "[", indent + TAB, es), indent) + "]" == doc + text
            && EndsSolid(text)
    decreases es, 1
  {
    BracketsStyled(doc, depth, "[");
    SolidAppend(doc, "[");
    ElementsAreLines(doc + "[", depth + 1, es);
    var inside := StyledElements(doc + "[", Blanks(3 * (depth + 1)), es);
    BracketLines(doc, "[", ElementLines(es, depth + 1), Blanks(3 * depth), "]", inside);
  }

  lemma {:induction false} ObjectIsLines(doc: string, depth: nat, ms: seq<Member>)
    requires Writable(Object(ms)) && Ready(doc, depth)
    ensures var indent := Blanks(3 * depth);
            var text := Text(["{"] + MemberLines(ms, depth + 1) + [indent + "}"]);
            && Indented(StyledMembers(Indented(doc, indent) + "{", indent + TAB, ms), indent) + "}" == doc + text
            && EndsSolid(text)
    decreases ms, 1
  {
    BracketsStyled(doc, depth, "{");
    SolidAppend(doc, "{");
    MembersAreLines(doc + "{", depth + 1, ms);
    var inside := StyledMembers(doc + "{", Blanks(3 * (depth + 1)), ms);
    BracketLines(doc, "{", MemberLines(ms, depth + 1), Blanks(3 * depth), "}", inside);
  }

  /** The opening bracket stays on the line, and what it holds is one level deeper. */
  lemma {:induction false} BracketsStyled(doc: string, depth: nat, open: string)
    requires Ready(doc, depth)
    ensures Indented(doc, Blanks(3 * depth)) + open == doc + open
    ensures Blanks(3 * depth) + TAB == Blanks(3 * (depth + 1))
  {
    ReadyStays(doc, depth);
    Deeper(depth);
  }

  /** Brackets around lines. */
  lemma {:induction false} BracketLines(doc: string, open: string, ls: seq<string>, indent: string, close: string,
                                        inside: string)
    requires inside == doc + open + Below(ls) && EndsSolid(inside) && EndsSolid(close)
    ensures Indented(inside, indent) + close == doc + Text([open] + ls + [indent + close])
    ensures EndsSolid(Text([open] + ls + [indent + close]))
  {
    var all := [open] + ls + [indent + close];
    NewLine(doc + open + Below(ls), indent);
    assert all[1..] == ls + [indent + close];
    BelowAppend(ls, [indent + close]);
    BelowOne(indent + close);
    var end := "\n" + (indent + close);
    assert all[0] == open;
    Reassociate("\n", indent, close);
    Reassociate(doc + open + Below(ls), "\n" + indent, close);
    Reassociate(doc + open, Below(ls), end);
    Reassociate(doc, open, Below(ls) + end);
    SolidAppend("\n" + indent, close);
    SolidAppend(open + Below(ls), end);
    Reassociate(open, Below(ls), end);
  }

  lemma {:induction false} ElementsAreLines(doc: string, depth: nat, es: seq<Value>)
    requires AllWritable(es) && EndsSolid(doc) && depth > 0
    ensures StyledElements(doc, Blanks(3 * depth), es) == doc + Below(ElementLines(es, depth))
    ensures EndsSolid(doc + Below(ElementLines(es, depth)))
    decreases es, 0
  {
    if es == [] {
      assert doc + "" == doc;
    } else {
      var indent, more := Blanks(3 * depth), |es| > 1;
      var line := doc + ("\n" + indent);
      NewLine(doc, indent);
      StyledIsLines(line, depth, es[0]);
      var d := ItemAdded(doc, indent, Lines(es[0], depth), more, ElementLines(es[1..], depth));
      ElementsAreLines(d, depth, es[1..]);
    }
  }

  lemma {:induction false} MembersAreLines(doc: string, depth: nat, ms: seq<Member>)
    requires Writable(Object(ms)) && EndsSolid(doc) && depth > 0
    ensures StyledMembers(doc, Blanks(3 * depth), ms) == doc + Below(MemberLines(ms, depth))
    ensures EndsSolid(doc + Below(MemberLines(ms, depth)))
    decreases ms, 0
  {
    if ms == [] {
      assert doc + "" == doc;
    } else {
      var indent, more := Blanks(3 * depth), |ms| > 1;
      var lead := indent + Quote(ms[0].name) + " : ";
      var line := doc + ("\n" + lead);
      NewLine(doc, indent);
      assert doc + ("\n" + indent) + Quote(ms[0].name) + " : " == line;
      StyledIsLines(line, depth, ms[0].value);
      var d := ItemAdded(doc, lead, Lines(ms[0].value, depth), more, MemberLines(ms[1..], depth));
      MembersAreLines(d, depth, ms[1..]);
    }
  }

  /** One more item on lines of its own. */
  lemma {:induction false} ItemAdded(doc: string, lead: string, lines: seq<string>, more: bool, rest: seq<string>)
      returns (d: string)
    requires lines != [] && EndsSolid(Text(lines))
    ensures d == doc + ("\n" + lead) + Text(lines) + (if more then "," else "") && EndsSolid(d)
    ensures !more ==> d == doc + ("\n" + lead) + Text(lines)
    ensures d + Below(rest) == doc + Below(Item(lead, lines, more) + rest)
  {
    d := doc + ("\n" + lead) + Text(lines) + (if more then "," else "");
    BelowItem(lead, lines, more);
    BelowAppend(Item(lead, lines, more), rest);
    assert d == doc + Below(Item(lead, lines, more));
    Reassociate(doc, Below(Item(lead, lines, more)), Below(rest));
  }

  // ---- how many lines, and how they begin ----

  /** The line feeds in a value: one for each item and one for the closing
      bracket of each value on several lines. */
  function Breaks(v: Value): nat
    requires Writable(v)
    decreases v, 1
  {
    if !IsNested(v) || (v.Array? && !IsMultiline(v.elements)) then 0
    else if v.Array? then 1 + |v.elements| + ElementBreaks(v.elements)
    else 1 + |v.members| + MemberBreaks(v.members)
  }

  function ElementBreaks(es: seq<Value>): nat
    requires AllWritable(es)
    decreases es
  {
    if es == [] then 0 else Breaks(es[0]) + ElementBreaks(es[1..])
  }

  function MemberBreaks(ms: seq<Member>): nat
    requires Writable(Object(ms))
    decreases ms
  {
    if ms == [] then 0 else Breaks(ms[0].value) + MemberBreaks(ms[1..])
  }

  /** n blanks and then something else. */
  predicate StartsAt(line: string, n: nat) {
    |line| > n && Blanks(n) <= line && line[n] != ' '
  }

  /** No line feed, and behind 3 blanks for each level from `depth` on. */
  ghost predicate GoodLine(line: string, depth: nat) {
    '\n' !in line && exists k: nat :: k >= depth && StartsAt(line, 3 * k)
  }

  ghost predicate GoodLines(lines: seq<string>, depth: nat) {
    forall i :: 0 <= i < |lines| ==> GoodLine(lines[i], depth)
  }

  /** What a value that begins in the middle of a line looks like. */
  ghost predicate GoodBlock(lines: seq<string>, depth: nat, breaks: nat) {
    && |lines| == breaks + 1 && '\n' !in lines[0] && StartsAt(lines[0], 0)
    && GoodLines(lines[1..], depth)
  }

  lemma {:induction false} LinesAreGood(v: Value, depth: nat)
    requires Writable(v)
    ensures GoodBlock(Lines(v, depth), depth, Breaks(v))
    decreases v, 1
  {
    if !IsNested(v) {
      ScalarText(v);
      CompactStarts(v);
    } else if v.Array? && !IsMultiline(v.elements) {
      ListedHasNoFeed(v.elements);
    } else if v.Array? {
      ElementLinesAreGood(v.elements, depth + 1);
      BracketsAreGood("[", ElementLines(v.elements, depth + 1), depth, "]");
    } else {
      MemberLinesAreGood(v.members, depth + 1);
      BracketsAreGood("{", MemberLines(v.members, depth + 1), depth, "}");
    }
  }

  lemma {:induction false} BracketsAreGood(open: string, ls: seq<string>, depth: nat, close: string)
    requires GoodLines(ls, depth + 1) && '\n' !in open && StartsAt(open, 0) && '\n' !in close && StartsAt(close, 0)
    ensures GoodBlock([open] + ls + [Blanks(3 * depth) + close], depth, |ls| + 1)
  {
    var all, last := [open] + ls + [Blanks(3 * depth) + close], Blanks(3 * depth) + close;
    ShallowerLines(ls, depth);
    IndentedIsGood(depth, close);
    assert all[1..] == ls + [last];
    forall i | 0 <= i < |ls| + 1 ensures GoodLine(all[1..][i], depth) {
    }
  }

  lemma {:induction false} CompactStarts(v: Value)
    requires Writable(v) && !IsNested(v)
    ensures StartsAt(Compact(v), 0)
  {
    TokensSolid(v);
    assert Join(Tokens(v))[0] == Tokens(v)[0][0];
  }

  lemma {:induction false} ListedHasNoFeed(es: seq<Value>)
    requires AllWritable(es) && forall i :: 0 <= i < |es| ==> !IsNested(es[i])
    ensures '\n' !in Listed(es)
  {
    if es != [] {
      ListedHasNoFeed(es[1..]);
      ScalarText(es[0]);
    }
  }

  lemma {:induction false} IndentedIsGood(depth: nat, text: string)
    requires '\n' !in text && StartsAt(text, 0)
    ensures GoodLine(Blanks(3 * depth) + text, depth)
  {
    assert StartsAt(Blanks(3 * depth) + text, 3 * depth);
  }

  lemma {:induction false} ShallowerLines(ls: seq<string>, depth: nat)
    requires GoodLines(ls, depth + 1)
    ensures GoodLines(ls, depth)
  {
    forall i | 0 <= i < |ls| ensures GoodLine(ls[i], depth) {
      assert GoodLine(ls[i], depth + 1);
    }
  }

  /** A block behind a good beginning of a line, and perhaps a comma at its end. */
  lemma {:induction false} ItemIsGood(text: string, lines: seq<string>, more: bool, depth: nat, breaks: nat)
    requires GoodBlock(lines, depth, breaks) && '\n' !in text && (text == "" || StartsAt(text, 0))
    ensures var item := Item(Blanks(3 * depth) + text, lines, more);
            |item| == breaks + 1 && GoodLines(item, depth)
  {
    var lead := Blanks(3 * depth) + text;
    var first := [lead + lines[0]] + lines[1..];
    assert lead + lines[0] == Blanks(3 * depth) + (text + lines[0]);
    IndentedIsGood(depth, text + lines[0]);
    forall i | 0 <= i < |first| ensures GoodLine(first[i], depth) {
      if i > 0 {
        assert first[i] == lines[1..][i - 1];
      }
    }
    if more {
      CommaIsGood(first[|first| - 1], depth);
    }
  }

  lemma {:induction false} CommaIsGood(line: string, depth: nat)
    requires GoodLine(line, depth)
    ensures GoodLine(line + ",", depth)
  {
    var k: nat :| k >= depth && StartsAt(line, 3 * k);
    assert StartsAt(line + ",", 3 * k);
  }

  lemma {:induction false} ElementLinesAreGood(es: seq<Value>, depth: nat)
    requires AllWritable(es)
    ensures var ls := ElementLines(es, depth); |ls| == |es| + ElementBreaks(es) && GoodLines(ls, depth)
    decreases es, 0
  {
    if es != [] {
      LinesAreGood(es[0], depth);
      assert Blanks(3 * depth) + "" == Blanks(3 * depth);
      ItemIsGood("", Lines(es[0], depth), |es| > 1, depth, Breaks(es[0]));
      ElementLinesAreGood(es[1..], depth);
    }
  }

  lemma {:induction false} MemberLinesAreGood(ms: seq<Member>, depth: nat)
    requires Writable(Object(ms))
    ensures var ls := MemberLines(ms, depth); |ls| == |ms| + MemberBreaks(ms) && GoodLines(ls, depth)
    decreases ms, 0
  {
    if ms != [] {
      LinesAreGood(ms[0].value, depth);
      QuoteHasNoFeed(ms[0].name);
      var text := Quote(ms[0].name) + " : ";
      assert Blanks(3 * depth) + Quote(ms[0].name) + " : " == Blanks(3 * depth) + text;
      ItemIsGood(text, Lines(ms[0].value, depth), |ms| > 1, depth, Breaks(ms[0].value));
      MemberLinesAreGood(ms[1..], depth);
    }
  }

  /** All of it for a whole document: the text is the lines with a line feed
      behind each, so it has as many line feeds as lines, and each line but the
      first is indented by a multiple of three blanks. */
  method WriteLines(writer: StyledWriter, root: Value) returns (text: string)
    requires Writable(root)
    modifies writer
    ensures text == Text(Lines(root, 0)) + "\n"
    ensures multiset(text)['\n'] == Breaks(root) + 1
    ensures GoodBlock(Lines(root, 0), 0, Breaks(root))
  {
    text := writer.Write(root);
    StyledIsLines("", 0, root);
    assert Blanks(0) == "" && "" + Text(Lines(root, 0)) == Text(Lines(root, 0));
    LinesAreGood(root, 0);
    FeedsOfText(Lines(root, 0), 0, Breaks(root));
  }

  lemma {:induction false} FeedsOfText(lines: seq<string>, depth: nat, breaks: nat)
    requires GoodBlock(lines, depth, breaks)
    ensures multiset(Text(lines))['\n'] == breaks
  {
    FeedsBelow(lines[1..], depth);
  }

  lemma {:induction false} FeedsBelow(lines: seq<string>, depth: nat)
    requires GoodLines(lines, depth)
    ensures multiset(Below(lines))['\n'] == |lines|
  {
    if lines != [] {
      assert GoodLine(lines[0], depth);
      FeedsBelow(lines[1..], depth);
    }
  }

  /** The choice between one line and several: a nested element, or a line that
      would reach column 74. */
  lemma {:induction false} MultilineExactly(es: seq<Value>)
    requires AllWritable(es) && es != []
    ensures IsMultiline(es) <==>
            (exists i :: 0 <= i < |es| && IsNested(es[i])) || |"[ " + Listed(es) + " ]"| >= 74
  {
    OneLineIsListed(es);
    OneLineFits(es);
    LongIsWide(es);
  }

  /** 25 elements never fit. */
  lemma {:induction false} LongIsWide(es: seq<Value>)
    requires AllWritable(es)
    ensures CompactLength(es) >= |es|
  {
    if es != [] {
      LongIsWide(es[..|es| - 1]);
      TokensSolid(es[|es| - 1]);
    }
  }
}

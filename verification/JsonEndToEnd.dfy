/** The writers and the reader of clientsdk/json, run one after the other. */
module JsonEndToEnd {
  import opened JsonParser
  import opened JsonReader
  import opened JsonRoundTrip
  import opened JsonStyledWriter
  import opened JsonTokens
  import opened JsonValue
  import opened JsonWriter

  /** FastWriter, with or without its YAML option, then Reader: the tree comes
      back with every integer re-read, which is the same tree exactly when it
      survives re-reading. */
  method FastRoundTrip(v: Value, yaml: bool, cfg: Config, root: Value) returns (ok: bool, result: Value)
    requires WellFormed(v) && Writable(v) && ScansIntegers(cfg.scan)
    ensures ok <==> cfg.strictRoot ==> IsArray(v) || IsObject(v)
    ensures result == Reread(v, cfg.scan)
    ensures result == v <==> Survives(v)
  {
    var writer := new FastWriter();
    if yaml {
      writer.EnableYamlCompatibility();
    }
    var text := writer.Write(v);
    ghost var body := FastText(v, yaml);
    FastTextSpellsTokens(v, yaml);
    TokensSolid(v);
    SpacedBlank("\n");
    SpacedAppend(body, Tokens(v), "\n", []);
    assert Tokens(v) + [] == Tokens(v);
    ok, result := ReadBack(text, v, cfg, root);
  }

  /** StyledWriter then Reader: the same tree as for FastWriter. */
  method StyledRoundTrip(v: Value, cfg: Config, root: Value) returns (ok: bool, result: Value)
    requires WellFormed(v) && Writable(v) && ScansIntegers(cfg.scan)
    ensures ok <==> cfg.strictRoot ==> IsArray(v) || IsObject(v)
    ensures result == Reread(v, cfg.scan)
    ensures result == v <==> Survives(v)
  {
    var writer := new StyledWriter();
    var text := writer.Write(v);
    ok, result := ReadBack(text, v, cfg, root);
  }

  method ReadBack(text: string, ghost v: Value, cfg: Config, root: Value) returns (ok: bool, result: Value)
    requires WellFormed(v) && RealFree(v) && ScansIntegers(cfg.scan) && Spaced(text, Tokens(v))
    ensures ok <==> cfg.strictRoot ==> IsArray(v) || IsObject(v)
    ensures result == Reread(v, cfg.scan)
    ensures result == v <==> Survives(v)
  {
    var reader := new Reader(cfg);
    ok, result := reader.Parse(text, root);
    ParsesTree(cfg, text, v, root);
    RereadIsIdentity(v, cfg.scan);
  }

  /** Any bytes, any starting root: parsing ends, its verdict is that no error
      was recorded, and the tree it leaves is well formed. */
  method ParseAnything(text: string, cfg: Config, root: Value) returns (ok: bool, result: Value, errors: seq<ErrorInfo>)
    requires WellFormed(root)
    ensures ok <==> errors == []
    ensures WellFormed(result)
  {
    var reader := new Reader(cfg);
    ok, result := reader.Parse(text, root);
    errors := reader.errors;
    VerdictIsNoErrors(cfg, text, root);
    ParsedIsWellFormed(cfg, text, root);
  }

  lemma {:induction false} WellFormedIsWritable(v: Value)
    requires WellFormed(v) && RealFree(v)
    ensures Writable(v)
    decreases v
  {
    if v.Array? {
      forall i | 0 <= i < |v.elements| ensures Writable(v.elements[i]) {
        WellFormedIsWritable(v.elements[i]);
      }
    } else if v.Object? {
      forall i | 0 <= i < |v.members| ensures Writable(v.members[i].value) {
        WellFormedIsWritable(v.members[i].value);
      }
    }
  }

  /** Any text, parsed, printed by either writer and parsed again: the same tree,
      if it holds no doubles, even when the text had errors. */
  method ParsePrintParse(text: string, yaml: bool, cfg: Config, root: Value)
      returns (first: Value, compact: Value, styled: Value)
    requires ScansIntegers(cfg.scan)
    ensures first == Parse(cfg, text, Null).value
    ensures RealFree(first) ==> compact == first && styled == first
  {
    var reader := new Reader(cfg);
    var ok;
    ok, first := reader.Parse(text, Null);
    compact, styled := first, first;
    ParsedIsWellFormed(cfg, text, Null);
    ParsedSurvives(cfg, text, Null);
    if RealFree(first) {
      WellFormedIsWritable(first);
      ok, compact := FastRoundTrip(first, yaml, cfg, root);
      ok, styled := StyledRoundTrip(first, cfg, root);
    }
  }
}

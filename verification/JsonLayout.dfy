/** The texts that the writers of json/src/json_writer.cpp give to a printed tree. Each
    is a chain of pieces, so that what it spells follows piece by piece. */
module JsonLayout {
  import opened JsonValue
  import opened JsonScan
  import opened JsonDoc
  import opened Text
  import JsonString

  // ---------------------------------------------------------------- spelling

  /** Wherever the text stands in a document, it spells the lexemes. */
  ghost predicate Spelled(text: string, lexemes: seq<string>) {
    forall doc: string, i: nat {:trigger At(doc, i, text)} ::
      At(doc, i, text) ==> Spells(doc, i, lexemes, i + |text|)
  }

  lemma SpelledJoin(a: string, la: seq<string>, b: string, lb: seq<string>)
    requires Spelled(a, la) && Spelled(b, lb)
    ensures Spelled(a + b, la + lb)
  {
    hide Spells;
    forall doc: string, i: nat | At(doc, i, a + b) ensures Spells(doc, i, la + lb, i + |a + b|) {
      AtConcat(doc, i, a, b);
      SpellsConcat(doc, i, la, i + |a|, lb, i + |a| + |b|);
    }
  }

  lemma SpelledGap(gap: string, a: string, la: seq<string>)
    requires AllSpace(gap) && la != [] && Spelled(a, la)
    ensures Spelled(gap + a, la)
  {
    hide Spells;
    forall doc: string, i: nat | At(doc, i, gap + a) ensures Spells(doc, i, la, i + |gap + a|) {
      AtConcat(doc, i, gap, a);
      forall x | i <= x < i + |gap| ensures IsSpace(doc[x]) {
        AtIndex(doc, i, gap, x - i);
      }
      SpellsAfterGap(doc, i, i + |gap|, la, i + |gap| + |a|);
    }
  }

  lemma SpelledOne(t: string)
    requires t != "" && !IsSpace(t[0])
    ensures Spelled(t, [t])
  {
    forall doc: string, i: nat | At(doc, i, t) ensures Spells(doc, i, [t], i + |t|) {
      SpellsOne(doc, i, t);
    }
  }

  /** Text that does not run into white space on either side. */
  predicate Solid(t: string) {
    t != "" && !IsSpace(t[0]) && t[|t| - 1] != ' ' && t[|t| - 1] != '\n'
  }

  predicate Clean(d: Doc) {
    match d
    case Leaf(text) => Solid(text)
    case List(ds) => forall k :: 0 <= k < |ds| ==> Clean(ds[k])
    case Record(fs) => forall k :: 0 <= k < |fs| ==> (assert fs[k].value < fs[k]; Clean(fs[k].value))
  }

  lemma SolidQuoted(s: string)
    ensures Solid(JsonString.Quoted(s))
  {
  }

  // ---------------------------------------------------------------- compact text

  function CommaText(k: nat): string {
    if k > 0 then "," else ""
  }

  function FastText(d: Doc, colon: string): string {
    match d
    case Leaf(text) => text
    case List(ds) => "[" + FastItems(ds, 0, colon)
    case Record(fs) => "{" + FastFields(fs, 0, colon)
  }

  function FastItems(ds: seq<Doc>, k: nat, colon: string): string
    requires k <= |ds|
    decreases ds, |ds| - k
  {
    if k == |ds| then "]" else CommaText(k) + (FastText(ds[k], colon) + FastItems(ds, k + 1, colon))
  }

  function FastFields(fs: seq<Field>, k: nat, colon: string): string
    requires k <= |fs|
    decreases fs, |fs| - k
  {
    if k == |fs| then "}"
    else
      assert fs[k].value < fs[k];
      var rest := FastText(fs[k].value, colon) + FastFields(fs, k + 1, colon);
      CommaText(k) + (JsonString.Quoted(fs[k].name) + (colon + rest))
  }

  lemma SpelledComma(k: nat)
    ensures Spelled(CommaText(k), Comma(k))
  {
    if k > 0 {
      SpelledOne(",");
    }
  }

  /** ":" or ": " and what follows it. */
  lemma SpelledColon(colon: string, a: string, la: seq<string>)
    requires (colon == ":" || colon == ": ") && la != [] && Spelled(a, la)
    ensures Spelled(colon + a, [":"] + la)
  {
    hide Spelled;
    SpelledOne(":");
    if colon == ":" {
      SpelledJoin(":", [":"], a, la);
    } else {
      SpelledGap(" ", a, la);
      SpelledJoin(":", [":"], " " + a, la);
      assert colon + a == ":" + (" " + a);
    }
  }

  lemma LexemesNotEmpty(d: Doc)
    ensures Lexemes(d) != []
  {
  }

  /** The compact text spells the tree's token sequence. */
  lemma {:induction false} FastSpelled(d: Doc, colon: string)
    requires Clean(d) && (colon == ":" || colon == ": ")
    ensures Spelled(FastText(d, colon), Lexemes(d))
    decreases d, 0
  {
    match d
    case Leaf(text) => SpelledOne(text);
    case List(ds) =>
      FastItemsSpelled(ds, 0, colon);
      SpelledOne("[");
      SpelledJoin("[", ["["], FastItems(ds, 0, colon), ItemLexemes(ds, 0));
    case Record(fs) =>
      FastFieldsSpelled(fs, 0, colon);
      SpelledOne("{");
      SpelledJoin("{", ["{"], FastFields(fs, 0, colon), FieldLexemes(fs, 0));
  }

  lemma {:induction false} FastItemsSpelled(ds: seq<Doc>, k: nat, colon: string)
    requires k <= |ds| && (forall x :: 0 <= x < |ds| ==> Clean(ds[x])) && (colon == ":" || colon == ": ")
    ensures Spelled(FastItems(ds, k, colon), ItemLexemes(ds, k))
    decreases ds, |ds| - k
  {
    hide Spelled, FastText, Lexemes, Clean;
    if k == |ds| {
      SpelledOne("]");
    } else {
      var a, la, b, lb := FastText(ds[k], colon), Lexemes(ds[k]), FastItems(ds, k + 1, colon), ItemLexemes(ds, k + 1);
      FastSpelled(ds[k], colon);
      FastItemsSpelled(ds, k + 1, colon);
      SpelledJoin(a, la, b, lb);
      SpelledComma(k);
      SpelledJoin(CommaText(k), Comma(k), a + b, la + lb);
    }
  }

  lemma {:induction false} FastFieldsSpelled(fs: seq<Field>, k: nat, colon: string)
    requires k <= |fs| && (forall x :: 0 <= x < |fs| ==> Clean(fs[x].value)) && (colon == ":" || colon == ": ")
    ensures Spelled(FastFields(fs, k, colon), FieldLexemes(fs, k))
    decreases fs, |fs| - k
  {
    hide Spelled, FastText, Lexemes, Clean, JsonString.Quoted;
    if k == |fs| {
      SpelledOne("}");
    } else {
      assert fs[k].value < fs[k];
      var name, v := JsonString.Quoted(fs[k].name), fs[k].value;
      var a, la, b, lb := FastText(v, colon), Lexemes(v), FastFields(fs, k + 1, colon), FieldLexemes(fs, k + 1);
      FastSpelled(v, colon);
      FastFieldsSpelled(fs, k + 1, colon);
      SpelledJoin(a, la, b, lb);
      LexemesNotEmpty(v);
      SpelledMember(name, fs[k].name, colon, a + b, la + lb);
      SpelledComma(k);
      SpelledJoin(CommaText(k), Comma(k), name + (colon + (a + b)), [name, ":"] + (la + lb));
    }
  }

  lemma SpelledMember(name: string, s: string, colon: string, a: string, la: seq<string>)
    requires name == JsonString.Quoted(s) && (colon == ":" || colon == ": ") && la != [] && Spelled(a, la)
    ensures Spelled(name + (colon + a), [name, ":"] + la)
  {
    hide Spelled, JsonString.Quoted;
    SpelledColon(colon, a, la);
    SolidQuoted(s);
    SpelledOne(name);
    SpelledJoin(name, [name], colon + a, [":"] + la);
    assert [name] + ([":"] + la) == [name, ":"] + la;
  }

  // ---------------------------------------------------------------- styled text

  /** StyledWriter indents by three spaces and opens a container where it stands;
      StyledStreamWriter indents by any string and opens it on a new line. */
  datatype Style = Style(stream: bool, unit: string)

  const RIGHT_MARGIN := 74

  /** A value that pushValue prints as one piece. */
  predicate Flat(d: Doc) {
    match d
    case Leaf(_) => true
    case List(ds) => ds == []
    case Record(fs) => fs == []
  }

  function FlatText(d: Doc): string {
    match d
    case Leaf(text) => text
    case List(_) => "[]"
    case Record(_) => "{}"
  }

  function TotalLength(ds: seq<Doc>): nat {
    if ds == [] then 0 else TotalLength(ds[..|ds| - 1]) + |FlatText(ds[|ds| - 1])|
  }

  /** Items go on lines of their own when there are many, when one is a container with
      items, or when the row would reach the right margin. */
  predicate Multiline(ds: seq<Doc>) {
    || |ds| * 3 >= RIGHT_MARGIN
    || (exists k :: 0 <= k < |ds| && !Flat(ds[k]))
    || 4 + (|ds| - 1) * 2 + TotalLength(ds) >= RIGHT_MARGIN
  }

  function Opening(indent: string, style: Style): string {
    if style.stream then "\n" + indent else ""
  }

  /** The text of a tree that starts at the given indentation. */
  function Styled(d: Doc, indent: string, style: Style): string {
    if Flat(d) then FlatText(d)
    else match d
      case List(ds) =>
        if Multiline(ds) then Opening(indent, style) + ("[" + ItemLines(ds, 0, indent, style))
        else "[ " + Row(ds, 0)
      case Record(fs) => Opening(indent, style) + ("{" + FieldLines(fs, 0, indent, style))
  }

  function ItemLines(ds: seq<Doc>, k: nat, indent: string, style: Style): string
    requires k <= |ds|
    decreases ds, |ds| - k
  {
    if k == |ds| then "\n" + (indent + "]")
    else
      var inner := indent + style.unit;
      CommaText(k) + ("\n" + (inner + (Styled(ds[k], inner, style) + ItemLines(ds, k + 1, indent, style))))
  }

  function Row(ds: seq<Doc>, k: nat): string
    requires k <= |ds|
    decreases |ds| - k
  {
    if k == |ds| then " ]"
    else (if k > 0 then ", " else "") + (FlatText(ds[k]) + Row(ds, k + 1))
  }

  function FieldLines(fs: seq<Field>, k: nat, indent: string, style: Style): string
    requires k <= |fs|
    decreases fs, |fs| - k
  {
    if k == |fs| then "\n" + (indent + "}")
    else
      assert fs[k].value < fs[k];
      var inner := indent + style.unit;
      CommaText(k) + ("\n" + (inner + (JsonString.Quoted(fs[k].name) + (" : " +
        (Styled(fs[k].value, inner, style) + FieldLines(fs, k + 1, indent, style))))))
  }

  lemma FlatSpelled(d: Doc)
    requires Flat(d) && Clean(d)
    ensures Spelled(FlatText(d), Lexemes(d))
  {
    hide Spelled;
    match d
    case Leaf(text) => SpelledOne(text);
    case List(ds) =>
      SpelledOne("[");
      SpelledOne("]");
      SpelledJoin("[", ["["], "]", ["]"]);
      assert "[" + "]" == "[]" && Lexemes(d) == ["["] + ["]"];
    case Record(fs) =>
      SpelledOne("{");
      SpelledOne("}");
      SpelledJoin("{", ["{"], "}", ["}"]);
      assert "{" + "}" == "{}" && Lexemes(d) == ["{"] + ["}"];
  }

  /** A closing bracket on its own line. */
  lemma SpelledClosing(indent: string, bracket: string)
    requires AllSpace(indent) && (bracket == "]" || bracket == "}")
    ensures Spelled("\n" + (indent + bracket), [bracket])
  {
    hide Spelled;
    SpelledOne(bracket);
    SpelledGap(indent, bracket, [bracket]);
    SpelledGap("\n", indent + bracket, [bracket]);
  }

  /** A comma, a new line, an indentation and what stands there. */
  lemma SpelledLine(k: nat, indent: string, a: string, la: seq<string>)
    requires AllSpace(indent) && la != [] && Spelled(a, la)
    ensures Spelled(CommaText(k) + ("\n" + (indent + a)), Comma(k) + la)
  {
    hide Spelled;
    SpelledGap(indent, a, la);
    SpelledGap("\n", indent + a, la);
    SpelledComma(k);
    SpelledJoin(CommaText(k), Comma(k), "\n" + (indent + a), la);
  }

  lemma SpelledOpening(indent: string, style: Style, bracket: string, a: string, la: seq<string>)
    requires AllSpace(indent) && (bracket == "[" || bracket == "{") && Spelled(a, la)
    ensures Spelled(Opening(indent, style) + (bracket + a), [bracket] + la)
  {
    hide Spelled;
    SpelledOne(bracket);
    SpelledJoin(bracket, [bracket], a, la);
    if style.stream {
      SpelledGap(indent, bracket + a, [bracket] + la);
      SpelledGap("\n", indent + (bracket + a), [bracket] + la);
      Assoc("\n", indent, bracket + a);
    } else {
      assert "" + (bracket + a) == bracket + a;
    }
  }

  /** The styled text spells the tree's token sequence. */
  lemma {:induction false} StyledSpelled(d: Doc, indent: string, style: Style)
    requires Clean(d) && AllSpace(indent) && AllSpace(style.unit)
    ensures Spelled(Styled(d, indent, style), Lexemes(d))
    decreases d, 0
  {
    hide Spelled, Multiline;
    if Flat(d) {
      FlatSpelled(d);
    } else if d.Record? {
      FieldLinesSpelled(d.fields, 0, indent, style);
      SpelledOpening(indent, style, "{", FieldLines(d.fields, 0, indent, style), FieldLexemes(d.fields, 0));
    } else if Multiline(d.items) {
      ItemLinesSpelled(d.items, 0, indent, style);
      SpelledOpening(indent, style, "[", ItemLines(d.items, 0, indent, style), ItemLexemes(d.items, 0));
    } else {
      RowIsFlat(d.items);
      RowSpelled(d.items);
    }
  }

  lemma RowIsFlat(ds: seq<Doc>)
    requires !Multiline(ds)
    ensures forall k :: 0 <= k < |ds| ==> Flat(ds[k])
  {
  }

  lemma {:induction false} ItemLinesSpelled(ds: seq<Doc>, k: nat, indent: string, style: Style)
    requires k <= |ds| && (forall x :: 0 <= x < |ds| ==> Clean(ds[x])) && AllSpace(indent) && AllSpace(style.unit)
    ensures Spelled(ItemLines(ds, k, indent, style), ItemLexemes(ds, k))
    decreases ds, |ds| - k
  {
    hide Spelled, Styled, Lexemes, Clean;
    if k == |ds| {
      SpelledClosing(indent, "]");
    } else {
      var inner := indent + style.unit;
      var a, la := Styled(ds[k], inner, style), Lexemes(ds[k]);
      var b, lb := ItemLines(ds, k + 1, indent, style), ItemLexemes(ds, k + 1);
      StyledSpelled(ds[k], inner, style);
      ItemLinesSpelled(ds, k + 1, indent, style);
      SpelledJoin(a, la, b, lb);
      LexemesNotEmpty(ds[k]);
      SpelledLine(k, inner, a + b, la + lb);
    }
  }

  lemma {:induction false} FieldLinesSpelled(fs: seq<Field>, k: nat, indent: string, style: Style)
    requires k <= |fs| && (forall x :: 0 <= x < |fs| ==> Clean(fs[x].value)) && AllSpace(indent) && AllSpace(style.unit)
    ensures Spelled(FieldLines(fs, k, indent, style), FieldLexemes(fs, k))
    decreases fs, |fs| - k
  {
    hide Spelled, Styled, Lexemes, Clean, JsonString.Quoted;
    if k == |fs| {
      SpelledClosing(indent, "}");
    } else {
      assert fs[k].value < fs[k];
      var name, v, inner := JsonString.Quoted(fs[k].name), fs[k].value, indent + style.unit;
      var a, la := Styled(v, inner, style), Lexemes(v);
      var b, lb := FieldLines(fs, k + 1, indent, style), FieldLexemes(fs, k + 1);
      StyledSpelled(v, inner, style);
      FieldLinesSpelled(fs, k + 1, indent, style);
      SpelledJoin(a, la, b, lb);
      LexemesNotEmpty(v);
      SpelledSpacedMember(name, fs[k].name, a + b, la + lb);
      SpelledLine(k, inner, name + (" : " + (a + b)), [name, ":"] + (la + lb));
    }
  }

  lemma SpelledSpacedMember(name: string, s: string, a: string, la: seq<string>)
    requires name == JsonString.Quoted(s) && la != [] && Spelled(a, la)
    ensures Spelled(name + (" : " + a), [name, ":"] + la)
  {
    hide Spelled, JsonString.Quoted;
    SpelledColon(": ", a, la);
    SpelledGap(" ", ": " + a, [":"] + la);
    assert " : " + a == " " + (": " + a);
    SolidQuoted(s);
    SpelledOne(name);
    SpelledJoin(name, [name], " : " + a, [":"] + la);
    assert [name] + ([":"] + la) == [name, ":"] + la;
  }

  lemma RowSpelled(ds: seq<Doc>)
    requires forall k :: 0 <= k < |ds| ==> Flat(ds[k]) && Clean(ds[k])
    ensures Spelled("[ " + Row(ds, 0), ["["] + ItemLexemes(ds, 0))
  {
    hide Spelled, Row;
    RowItemsSpelled(ds, 0);
    SpelledOne("[");
    SpelledGap(" ", Row(ds, 0), ItemLexemes(ds, 0));
    SpelledJoin("[", ["["], " " + Row(ds, 0), ItemLexemes(ds, 0));
    assert "[ " + Row(ds, 0) == "[" + (" " + Row(ds, 0));
  }

  lemma {:induction false} RowItemsSpelled(ds: seq<Doc>, k: nat)
    requires k <= |ds| && forall x :: 0 <= x < |ds| ==> Flat(ds[x]) && Clean(ds[x])
    ensures Spelled(Row(ds, k), ItemLexemes(ds, k)) && ItemLexemes(ds, k) != []
    decreases |ds| - k
  {
    hide Spelled, FlatText, Lexemes, Clean, Flat;
    if k == |ds| {
      SpelledOne("]");
      SpelledGap(" ", "]", ["]"]);
      assert " ]" == " " + "]";
    } else {
      var a, la, b, lb := FlatText(ds[k]), Lexemes(ds[k]), Row(ds, k + 1), ItemLexemes(ds, k + 1);
      FlatSpelled(ds[k]);
      LexemesNotEmpty(ds[k]);
      RowItemsSpelled(ds, k + 1);
      SpelledJoin(a, la, b, lb);
      if k > 0 {
        SpelledOne(",");
        SpelledGap(" ", a + b, la + lb);
        SpelledJoin(",", [","], " " + (a + b), la + lb);
        assert ", " + (a + b) == "," + (" " + (a + b));
      } else {
        assert Comma(0) + (la + lb) == la + lb && "" + (a + b) == a + b;
      }
    }
  }

  /** A styled text ends in its last token. */
  lemma {:induction false} StyledEndsSolid(d: Doc, indent: string, style: Style)
    requires Clean(d)
    ensures var t := Styled(d, indent, style);
            t != "" && t[|t| - 1] != ' ' && t[|t| - 1] != '\n'
  {
    hide ItemLines, FieldLines, Row, Multiline;
    match d
    case Leaf(_) =>
    case List(ds) =>
      if ds != [] {
        if Multiline(ds) {
          ItemLinesEnd(ds, 0, indent, style);
        } else {
          RowEnds(ds, 0);
        }
      }
    case Record(fs) =>
      if fs != [] {
        FieldLinesEnd(fs, 0, indent, style);
      }
  }

  lemma {:induction false} ItemLinesEnd(ds: seq<Doc>, k: nat, indent: string, style: Style)
    requires k <= |ds|
    ensures var t := ItemLines(ds, k, indent, style); t != "" && t[|t| - 1] == ']'
    decreases |ds| - k
  {
    hide Styled;
    if k < |ds| {
      ItemLinesEnd(ds, k + 1, indent, style);
    }
  }

  lemma {:induction false} FieldLinesEnd(fs: seq<Field>, k: nat, indent: string, style: Style)
    requires k <= |fs|
    ensures var t := FieldLines(fs, k, indent, style); t != "" && t[|t| - 1] == '}'
    decreases |fs| - k
  {
    hide Styled, JsonString.Quoted;
    if k < |fs| {
      FieldLinesEnd(fs, k + 1, indent, style);
    }
  }

  lemma {:induction false} RowEnds(ds: seq<Doc>, k: nat)
    requires k <= |ds|
    ensures var t := Row(ds, k); t != "" && t[|t| - 1] == ']'
    decreases |ds| - k
  {
    hide FlatText;
    if k < |ds| {
      RowEnds(ds, k + 1);
    }
  }
}

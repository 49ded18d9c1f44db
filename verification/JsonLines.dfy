/** The layouts of json/src/json_writer.cpp as lines: which arrays stand on one line, and how deep each
    line of the others is indented. */
module JsonLines {
  import opened JsonValue
  import opened JsonDoc
  import opened JsonLayout
  import opened Text
  import JsonNumber
  import JsonString

  // ---------------------------------------------------------------- arrays on one line

  /** Texts with a comma and a space between them. */
  function Joined(texts: seq<string>): string {
    if texts == [] then "" else if |texts| == 1 then texts[0] else texts[0] + (", " + Joined(texts[1..]))
  }

  function FlatTexts(ds: seq<Doc>): (texts: seq<string>)
    ensures |texts| == |ds| && forall k :: 0 <= k < |ds| ==> texts[k] == FlatText(ds[k])
  {
    seq(|ds|, k requires 0 <= k < |ds| => FlatText(ds[k]))
  }

  lemma {:induction false} RowIsJoined(ds: seq<Doc>, k: nat)
    requires k < |ds|
    ensures Row(ds, k) == (if k > 0 then ", " else "") + (Joined(FlatTexts(ds)[k..]) + " ]")
    decreases |ds| - k
  {
    hide FlatText;
    var texts := FlatTexts(ds);
    assert texts[k..][1..] == texts[k + 1..];
    if k + 1 < |ds| {
      RowIsJoined(ds, k + 1);
      Assoc(texts[k], ", ", Joined(texts[k + 1..]) + " ]");
      Assoc(texts[k] + ", ", Joined(texts[k + 1..]), " ]");
      Assoc(texts[k], ", ", Joined(texts[k + 1..]));
    } else {
      assert Row(ds, k + 1) == " ]";
    }
  }

  lemma {:induction false} JoinedLength(ds: seq<Doc>)
    requires ds != []
    ensures |Joined(FlatTexts(ds))| == 2 * (|ds| - 1) + TotalLength(ds)
    decreases |ds|
  {
    hide FlatText;
    var front, last := ds[..|ds| - 1], ds[|ds| - 1];
    var texts := FlatTexts(ds);
    if |ds| > 1 {
      JoinedLength(front);
      assert texts[..|ds| - 1] == FlatTexts(front) && texts == FlatTexts(front) + [FlatText(last)];
      JoinedSnoc(FlatTexts(front), FlatText(last));
    } else {
      assert TotalLength(front) == 0;
    }
  }

  lemma {:induction false} JoinedSnoc(texts: seq<string>, last: string)
    requires texts != []
    ensures Joined(texts + [last]) == Joined(texts) + (", " + last)
    decreases |texts|
  {
    var all := texts + [last];
    assert all[1..] == texts[1..] + [last];
    if |texts| > 1 {
      JoinedSnoc(texts[1..], last);
      Assoc(texts[0], ", " + Joined(texts[1..]), ", " + last);
      Assoc(", ", Joined(texts[1..]), ", " + last);
    } else {
      assert all[1..] == [last];
    }
  }

  lemma {:induction false} JoinedHasNoBreak(texts: seq<string>)
    requires forall k :: 0 <= k < |texts| ==> '\n' !in texts[k]
    ensures '\n' !in Joined(texts)
    decreases |texts|
  {
    if |texts| > 1 {
      JoinedHasNoBreak(texts[1..]);
    }
  }

  /** An array with elements is printed without a line break exactly when its elements are scalars or
      empty containers, there are fewer than 25 of them, and its row takes fewer than 74 characters. */
  lemma OneLineExactly(ds: seq<Doc>, indent: string, style: Style)
    requires ds != [] && forall k :: 0 <= k < |ds| ==> '\n' !in FlatText(ds[k])
    ensures '\n' !in Styled(List(ds), indent, style) <==>
              && (forall k :: 0 <= k < |ds| ==> Flat(ds[k])) && |ds| < 25
              && |"[ " + (Joined(FlatTexts(ds)) + " ]")| < 74
  {
    hide Row, ItemLines, TotalLength, FlatText, Flat;
    RowIsJoined(ds, 0);
    JoinedLength(ds);
    JoinedHasNoBreak(FlatTexts(ds));
    NotFlat(ds);
    if Multiline(ds) {
      BreaksAtOnce(ds, indent, style);
    }
  }

  lemma NotFlat(ds: seq<Doc>)
    requires ds != []
    ensures !Flat(List(ds))
  {
  }

  lemma BreaksAtOnce(ds: seq<Doc>, indent: string, style: Style)
    requires ds != []
    ensures '\n' in ItemLines(ds, 0, indent, style)
  {
    hide Styled;
    var inner := indent + style.unit;
    var rest := inner + (Styled(ds[0], inner, style) + ItemLines(ds, 1, indent, style));
    assert ("" + ("\n" + rest))[0] == '\n';
  }

  lemma {:induction false} QuotedHasNoBreak(s: string)
    ensures '\n' !in JsonString.EscapeAll(s) && '\n' !in JsonString.Quoted(s)
  {
    if s != "" {
      QuotedHasNoBreak(s[1..]);
    }
  }

  lemma ElementHasNoBreak(v: Value, show: real -> string)
    requires forall r: real :: '\n' !in show(r)
    ensures '\n' !in FlatText(DocOf(v, show))
  {
    match v
    case Int(i) => NumberHasNoBreak(i);
    case UInt(u) => NumberHasNoBreak(u);
    case Str(s) => QuotedHasNoBreak(s);
    case _ =>
  }

  lemma NumberHasNoBreak(i: int)
    ensures '\n' !in JsonNumber.IntText(i)
  {
    JsonNumber.IntTextShape(i);
  }

  /** The same for values: element k is printed as a scalar, "[]" or "{}" unless it is a container
      that is not empty. */
  lemma ArrayOnOneLine(es: seq<Entry>, show: real -> string, indent: string, style: Style)
    requires Valid(Arr(es)) && ArraySize(es) > 0 && forall r: real :: '\n' !in show(r)
    ensures var texts := FlatTexts(ItemDocs(es, ArraySize(es), show));
            '\n' !in Styled(DocOf(Arr(es), show), indent, style) <==>
              && (forall k :: 0 <= k < ArraySize(es) ==>
                    var v := Lookup(es, Index(k)); !(v.Arr? && ArraySize(v.items) > 0) && !(v.Obj? && v.members != []))
              && ArraySize(es) < 25 && |"[ " + (Joined(texts) + " ]")| < 74
  {
    var ds := ItemDocs(es, ArraySize(es), show);
    assert DocOf(Arr(es), show) == List(ds);
    hide Styled, FlatText, Valid, Flat, DocOf, Lookup;
    forall k | 0 <= k < |ds|
      ensures '\n' !in FlatText(ds[k])
      ensures var v := Lookup(es, Index(k));
              Flat(ds[k]) <==> !(v.Arr? && ArraySize(v.items) > 0) && !(v.Obj? && v.members != [])
    {
      ElementHasNoBreak(Lookup(es, Index(k)), show);
      FlatIs(Lookup(es, Index(k)), show);
    }
    OneLineExactly(ds, indent, style);
  }

  lemma FlatIs(v: Value, show: real -> string)
    ensures Flat(DocOf(v, show)) <==> !(v.Arr? && ArraySize(v.items) > 0) && !(v.Obj? && v.members != [])
  {
  }

  /** A scalar is its text, and an empty container its two brackets. */
  lemma OnePiece(text: string, indent: string, style: Style)
    ensures Styled(Leaf(text), indent, style) == text
    ensures Styled(List([]), indent, style) == "[]" && Styled(Record([]), indent, style) == "{}"
  {
  }

  // ---------------------------------------------------------------- lines and their depth

  /** A line of text, as deep as it is nested. */
  datatype Line = Line(depth: nat, text: string)

  function Repeat(unit: string, n: nat): string {
    if n == 0 then "" else Repeat(unit, n - 1) + unit
  }

  /** Lines below a text: each starts with one unit for each level. */
  function Render(lines: seq<Line>, unit: string): string {
    if lines == [] then ""
    else "\n" + (Repeat(unit, lines[0].depth) + (lines[0].text + Render(lines[1..], unit)))
  }

  /** What of a tree stands on the line where it begins. */
  function Head(d: Doc, style: Style): string {
    if Flat(d) then FlatText(d)
    else match d
      case List(ds) =>
        if Multiline(ds) then (if style.stream then "" else "[") else "[ " + (Joined(FlatTexts(ds)) + " ]")
      case Record(_) => if style.stream then "" else "{"
  }

  /** The lines below it: in the stream style the opening bracket, then elements or members one
      level deeper, then the closing bracket. */
  function Below(d: Doc, depth: nat, style: Style): seq<Line>
    decreases d, 0
  {
    if Flat(d) then []
    else match d
      case List(ds) =>
        if Multiline(ds) then Opened(depth, "[", style) + ItemBlock(ds, 0, depth, style) else []
      case Record(fs) => Opened(depth, "{", style) + FieldBlock(fs, 0, depth, style)
  }

  function Opened(depth: nat, bracket: string, style: Style): seq<Line> {
    if style.stream then [Line(depth, bracket)] else []
  }

  /** A comma ends all but the last. */
  function WithComma(lines: seq<Line>, more: bool): (r: seq<Line>)
    requires lines != []
    ensures r != []
  {
    var last := |lines| - 1;
    if more then lines[..last] + [lines[last].(text := lines[last].text + ",")] else lines
  }

  function ItemBlock(ds: seq<Doc>, k: nat, depth: nat, style: Style): seq<Line>
    requires k <= |ds|
    decreases ds, |ds| - k
  {
    if k == |ds| then [Line(depth, "]")]
    else
      WithComma([Line(depth + 1, Head(ds[k], style))] + Below(ds[k], depth + 1, style), k + 1 < |ds|)
      + ItemBlock(ds, k + 1, depth, style)
  }

  function FieldBlock(fs: seq<Field>, k: nat, depth: nat, style: Style): seq<Line>
    requires k <= |fs|
    decreases fs, |fs| - k
  {
    if k == |fs| then [Line(depth, "}")]
    else
      assert fs[k].value < fs[k];
      var name := JsonString.Quoted(fs[k].name) + " : ";
      WithComma([Line(depth + 1, name + Head(fs[k].value, style))] + Below(fs[k].value, depth + 1, style), k + 1 < |fs|)
      + FieldBlock(fs, k + 1, depth, style)
  }

  lemma {:induction false} RenderConcat(a: seq<Line>, b: seq<Line>, unit: string)
    ensures Render(a + b, unit) == Render(a, unit) + Render(b, unit)
    decreases |a|
  {
    if a == [] {
      assert a + b == b;
    } else {
      var indent, text, rest := Repeat(unit, a[0].depth), a[0].text, Render(a[1..], unit);
      assert (a + b)[1..] == a[1..] + b;
      RenderConcat(a[1..], b, unit);
      hide Repeat;
      Assoc(text, rest, Render(b, unit));
      Assoc(indent, text + rest, Render(b, unit));
      Assoc("\n", indent + (text + rest), Render(b, unit));
    }
  }

  lemma RenderOne(depth: nat, text: string, unit: string)
    ensures Render([Line(depth, text)], unit) == "\n" + (Repeat(unit, depth) + text)
  {
    hide Repeat;
    assert [Line(depth, text)][1..] == [];
    assert text + "" == text;
  }

  lemma RenderComma(lines: seq<Line>, more: bool, unit: string)
    requires lines != []
    ensures Render(WithComma(lines, more), unit) == Render(lines, unit) + (if more then "," else "")
  {
    hide Render, Repeat;
    var front, last := lines[..|lines| - 1], lines[|lines| - 1];
    var indent := Repeat(unit, last.depth);
    assert lines == front + [last];
    RenderConcat(front, [last], unit);
    RenderConcat(front, [last.(text := last.text + ",")], unit);
    RenderOne(last.depth, last.text, unit);
    RenderOne(last.depth, last.text + ",", unit);
    Assoc(indent, last.text, ",");
    Assoc("\n", indent + last.text, ",");
    Assoc(Render(front, unit), "\n" + (indent + last.text), ",");
  }

  /** The styled text of a tree that starts at a depth is its first line and the lines below. */
  lemma {:induction false} StyledLines(d: Doc, depth: nat, style: Style)
    ensures Styled(d, Repeat(style.unit, depth), style) ==
            Head(d, style) + Render(Below(d, depth, style), style.unit)
    decreases d, 0
  {
    hide Render, Repeat, ItemLines, FieldLines, ItemBlock, FieldBlock, Multiline, Row, Joined;
    var unit := style.unit;
    EmptyRender(unit);
    if d.List? && !Flat(d) && Multiline(d.items) {
      ItemBlockLines(d.items, 0, depth, style);
      OpenedText(depth, "[", ItemBlock(d.items, 0, depth, style), style);
    } else if d.List? && !Flat(d) {
      RowIsJoined(d.items, 0);
      RowWhole(d.items);
    } else if d.Record? && !Flat(d) {
      FieldBlockLines(d.fields, 0, depth, style);
      OpenedText(depth, "{", FieldBlock(d.fields, 0, depth, style), style);
    }
  }

  lemma EmptyRender(unit: string)
    ensures forall t: string :: t + Render([], unit) == t
  {
  }

  lemma RowWhole(ds: seq<Doc>)
    requires ds != []
    ensures FlatTexts(ds)[0..] == FlatTexts(ds) && "" + (Joined(FlatTexts(ds)) + " ]") == Joined(FlatTexts(ds)) + " ]"
  {
  }

  lemma OpenedText(depth: nat, bracket: string, lines: seq<Line>, style: Style)
    ensures Opening(Repeat(style.unit, depth), style) + (bracket + Render(lines, style.unit)) ==
            (if style.stream then "" else bracket) + Render(Opened(depth, bracket, style) + lines, style.unit)
  {
    hide Render, Repeat;
    var rest, indent := Render(lines, style.unit), Repeat(style.unit, depth);
    if style.stream {
      RenderConcat([Line(depth, bracket)], lines, style.unit);
      RenderOne(depth, bracket, style.unit);
      Assoc("\n" + indent, bracket, rest);
      Assoc("\n", indent, bracket);
    } else {
      assert [] + lines == lines;
    }
  }

  lemma {:induction false} ItemBlockLines(ds: seq<Doc>, k: nat, depth: nat, style: Style)
    requires k <= |ds|
    ensures ItemLines(ds, k, Repeat(style.unit, depth), style) ==
            (if 0 < k < |ds| then "," else "") + Render(ItemBlock(ds, k, depth, style), style.unit)
    decreases ds, |ds| - k
  {
    hide Render, Styled, Head, Below;
    var unit := style.unit;
    if k == |ds| {
      RenderOne(depth, "]", unit);
    } else {
      var text, more := Styled(ds[k], Repeat(unit, depth + 1), style), k + 1 < |ds|;
      var rest := Render(ItemBlock(ds, k + 1, depth, style), unit);
      StyledLines(ds[k], depth + 1, style);
      ItemBlockLines(ds, k + 1, depth, style);
      BlockText(depth + 1, "", ds[k], more, style);
      assert "" + Head(ds[k], style) == Head(ds[k], style) && "" + text == text;
      RenderConcat(WithComma([Line(depth + 1, Head(ds[k], style))] + Below(ds[k], depth + 1, style), more),
        ItemBlock(ds, k + 1, depth, style), unit);
      hide Repeat, ItemLines, ItemBlock, WithComma;
      LineJoined(Repeat(unit, depth + 1), text, if more then "," else "", rest);
    }
  }

  /** An element with its lines, behind what stands before it on its first. */
  lemma BlockText(depth: nat, before: string, d: Doc, more: bool, style: Style)
    requires Styled(d, Repeat(style.unit, depth), style) == Head(d, style) + Render(Below(d, depth, style), style.unit)
    ensures Render(WithComma([Line(depth, before + Head(d, style))] + Below(d, depth, style), more), style.unit) ==
            "\n" + (Repeat(style.unit, depth) + (before + Styled(d, Repeat(style.unit, depth), style)))
            + (if more then "," else "")
  {
    hide Render, Repeat, Styled, Head, Below, WithComma;
    var unit, head, below := style.unit, Head(d, style), Render(Below(d, depth, style), style.unit);
    var lines := [Line(depth, before + head)] + Below(d, depth, style);
    RenderComma(lines, more, unit);
    RenderConcat([Line(depth, before + head)], Below(d, depth, style), unit);
    RenderOne(depth, before + head, unit);
    Assoc("\n", Repeat(unit, depth) + (before + head), below);
    Assoc(Repeat(unit, depth), before + head, below);
    Assoc(before, head, below);
  }

  lemma LineJoined(indent: string, text: string, comma: string, rest: string)
    ensures ("\n" + (indent + text)) + comma + rest == "\n" + (indent + (text + (comma + rest)))
  {
    Assoc("\n" + (indent + text), comma, rest);
    Assoc("\n", indent + text, comma + rest);
    Assoc(indent, text, comma + rest);
  }

  lemma {:induction false} FieldBlockLines(fs: seq<Field>, k: nat, depth: nat, style: Style)
    requires k <= |fs|
    ensures FieldLines(fs, k, Repeat(style.unit, depth), style) ==
            (if 0 < k < |fs| then "," else "") + Render(FieldBlock(fs, k, depth, style), style.unit)
    decreases fs, |fs| - k
  {
    hide Render, Styled, Head, Below;
    var unit := style.unit;
    if k == |fs| {
      RenderOne(depth, "}", unit);
    } else {
      assert fs[k].value < fs[k];
      var v, name := fs[k].value, JsonString.Quoted(fs[k].name);
      var text, more := Styled(v, Repeat(unit, depth + 1), style), k + 1 < |fs|;
      var rest := Render(FieldBlock(fs, k + 1, depth, style), unit);
      StyledLines(v, depth + 1, style);
      FieldBlockLines(fs, k + 1, depth, style);
      BlockText(depth + 1, name + " : ", v, more, style);
      RenderConcat(WithComma([Line(depth + 1, name + " : " + Head(v, style))] + Below(v, depth + 1, style), more),
        FieldBlock(fs, k + 1, depth, style), unit);
      hide Repeat, FieldLines, FieldBlock, WithComma, JsonString.Quoted;
      LineJoined(Repeat(unit, depth + 1), (name + " : ") + text, if more then "," else "", rest);
      MemberJoined(name, text, if more then "," else "", rest);
    }
  }

  lemma MemberJoined(name: string, text: string, comma: string, rest: string)
    ensures ((name + " : ") + text) + (comma + rest) == name + (" : " + (text + (comma + rest)))
  {
    Assoc(name + " : ", text, comma + rest);
    Assoc(name, " : ", text + (comma + rest));
  }

  /** The document a styled writer prints, line by line. */
  lemma DocumentLines(v: Value, show: real -> string, style: Style)
    ensures Styled(DocOf(v, show), "", style) ==
            Head(DocOf(v, show), style) + Render(Below(DocOf(v, show), 0, style), style.unit)
  {
    StyledLines(DocOf(v, show), 0, style);
  }

  // ---------------------------------------------------------------- compact text

  function Concat(texts: seq<string>): string {
    if texts == [] then "" else texts[0] + Concat(texts[1..])
  }

  lemma {:induction false} ConcatJoin(a: seq<string>, b: seq<string>)
    ensures Concat(a + b) == Concat(a) + Concat(b)
    decreases |a|
  {
    if a == [] {
      assert a + b == b;
    } else {
      assert (a + b)[1..] == a[1..] + b;
      ConcatJoin(a[1..], b);
      Assoc(a[0], Concat(a[1..]), Concat(b));
    }
  }

  lemma ConcatOne(t: string)
    ensures Concat([t]) == t && Concat([]) == ""
  {
    assert [t][1..] == [] && t + "" == t;
  }

  lemma CommaIs(k: nat)
    ensures Concat(Comma(k)) == CommaText(k)
  {
    ConcatOne(",");
  }

  /** The compact text is the tokens of the tree and nothing between them. */
  lemma {:induction false} FastIsTokens(d: Doc)
    ensures FastText(d, ":") == Concat(Lexemes(d))
    decreases d, 0
  {
    hide Concat;
    match d
    case Leaf(text) => ConcatOne(text);
    case List(ds) =>
      FastItemsAreTokens(ds, 0);
      ConcatOne("[");
      ConcatJoin(["["], ItemLexemes(ds, 0));
    case Record(fs) =>
      FastFieldsAreTokens(fs, 0);
      ConcatOne("{");
      ConcatJoin(["{"], FieldLexemes(fs, 0));
  }

  lemma {:induction false} FastItemsAreTokens(ds: seq<Doc>, k: nat)
    requires k <= |ds|
    ensures FastItems(ds, k, ":") == Concat(ItemLexemes(ds, k))
    decreases ds, |ds| - k
  {
    hide Concat, FastText, Lexemes;
    if k == |ds| {
      ConcatOne("]");
    } else {
      FastIsTokens(ds[k]);
      FastItemsAreTokens(ds, k + 1);
      CommaIs(k);
      ConcatJoin(Comma(k), Lexemes(ds[k]) + ItemLexemes(ds, k + 1));
      ConcatJoin(Lexemes(ds[k]), ItemLexemes(ds, k + 1));
    }
  }

  lemma {:induction false} FastFieldsAreTokens(fs: seq<Field>, k: nat)
    requires k <= |fs|
    ensures FastFields(fs, k, ":") == Concat(FieldLexemes(fs, k))
    decreases fs, |fs| - k
  {
    hide Concat, FastText, Lexemes, JsonString.Quoted;
    if k == |fs| {
      ConcatOne("}");
    } else {
      assert fs[k].value < fs[k];
      var name, l, rest := JsonString.Quoted(fs[k].name), Lexemes(fs[k].value), FieldLexemes(fs, k + 1);
      FastIsTokens(fs[k].value);
      FastFieldsAreTokens(fs, k + 1);
      CommaIs(k);
      ConcatJoin(Comma(k), [name, ":"] + (l + rest));
      ConcatJoin([name, ":"], l + rest);
      ConcatJoin(l, rest);
      ConcatJoin([name], [":"]);
      assert [name] + [":"] == [name, ":"];
      ConcatOne(name);
      ConcatOne(":");
      Assoc(name, ":", Concat(l) + Concat(rest));
    }
  }
}

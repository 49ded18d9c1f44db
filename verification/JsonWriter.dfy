/** The writers of json/src/json_writer.cpp: text and indentation grow in place, and
    short arrays go through a buffer of printed elements. Each writer is proved to
    produce the text that JsonLayout gives to the printed tree. */
module JsonWriter {
  import opened JsonValue
  import opened JsonDoc
  import opened JsonLayout
  import opened Text
  import JsonNumber
  import JsonString

  lemma ValidSlot(es: seq<Entry>, key: Key)
    requires Valid(Arr(es))
    ensures Valid(Lookup(es, key))
  {
  }

  /** valueToString and valueToQuotedString for the scalar types. */
  method ScalarText(value: Value, show: real -> string) returns (text: string)
    requires Valid(value) && !value.Arr? && !value.Obj?
    ensures DocOf(value, show) == Leaf(text)
  {
    match value
    case Null => text := "null";
    case Int(i) => text := JsonNumber.ValueToString(i);
    case UInt(u) => text := JsonNumber.ValueToString(u);
    case Real(r) => text := show(r);
    case Str(s) => text := JsonString.ValueToQuotedString(s);
    case Bool(b) => text := BoolText(b);
  }

  class FastWriter {
    const show: real -> string
    var yamlCompatibility: bool
    var document: string

    constructor (show: real -> string)
      ensures this.show == show && !yamlCompatibility
    {
      this.show := show;
      yamlCompatibility, document := false, "";
    }

    method EnableYAMLCompatibility()
      modifies this`yamlCompatibility
      ensures yamlCompatibility
    {
      yamlCompatibility := true;
    }

    ghost function Colon(): string
      reads this
    {
      if yamlCompatibility then ": " else ":"
    }

    method Write(root: Value) returns (result: string)
      requires Valid(root)
      modifies this`document
      ensures result == document == FastText(DocOf(root, show), Colon()) + "\n"
    {
      hide Valid, DocOf, FastText;
      document := "";
      WriteValue(root);
      assert document == FastText(DocOf(root, show), Colon());
      document := document + "\n";
      result := document;
    }

    method WriteValue(value: Value)
      requires Valid(value)
      modifies this`document
      ensures document == old(document) + FastText(DocOf(value, show), Colon())
      decreases Weight(value), 0
    {
      match value
      case Arr(es) => WriteArray(es);
      case Obj(es) => WriteObject(es);
      case _ =>
        var text := ScalarText(value, show);
        document := document + text;
    }

    method WriteArray(es: seq<Entry>)
      requires Valid(Arr(es))
      modifies this`document
      ensures document == old(document) + FastText(DocOf(Arr(es), show), Colon())
      decreases WeightAll(es), 1
    {
      hide Valid, DocOf, FastText, Lookup;
      SizeOfArray(es, show);
      var size := ArraySize(es);
      ghost var ds := ItemDocs(es, size, show);
      ghost var goal := document + ("[" + FastItems(ds, 0, Colon()));
      document := document + "[";
      Assoc(old(document), "[", FastItems(ds, 0, Colon()));
      for index := 0 to size
        invariant document + FastItems(ds, index, Colon()) == goal
      {
        FastItemStep(document, ds, index, Colon());
        if index > 0 {
          document := document + ",";
        }
        ValidSlot(es, Index(index));
        WriteValue(Lookup(es, Index(index)));
      }
      document := document + "]";
      FastListText(es, ds, show, Colon());
    }

    static lemma FastItemStep(document: string, ds: seq<Doc>, k: nat, colon: string)
      requires k < |ds|
      ensures document + FastItems(ds, k, colon) ==
              (if k > 0 then document + "," else document) + FastText(ds[k], colon) + FastItems(ds, k + 1, colon)
    {
      hide FastText;
      var a, b := FastText(ds[k], colon), FastItems(ds, k + 1, colon);
      assert FastItems(ds, k, colon) == CommaText(k) + (a + b);
      Assoc(document, CommaText(k), a + b);
      Assoc(document + CommaText(k), a, b);
      assert document + "" == document;
    }

    static lemma FastListText(es: seq<Entry>, ds: seq<Doc>, show: real -> string, colon: string)
      requires Valid(Arr(es)) && DocOf(Arr(es), show) == List(ds)
      ensures FastText(DocOf(Arr(es), show), colon) == "[" + FastItems(ds, 0, colon)
      ensures FastItems(ds, |ds|, colon) == "]"
    {
      hide DocOf;
    }

    method WriteObject(es: seq<Entry>)
      requires Valid(Obj(es))
      modifies this`document
      ensures document == old(document) + FastText(DocOf(Obj(es), show), Colon())
      decreases WeightAll(es), 1
    {
      ghost var fs := FieldDocs(es, show);
      ghost var goal := document + ("{" + FastFields(fs, 0, Colon()));
      document := document + "{";
      Assoc(old(document), "{", FastFields(fs, 0, Colon()));
      for index := 0 to |es|
        invariant document + FastFields(fs, index, Colon()) == goal
      {
        hide DocOf, FastText, JsonString.Quoted;
        FastFieldStep(document, fs, index, Colon());
        if index > 0 {
          document := document + ",";
        }
        var name := JsonString.ValueToQuotedString(KeyText(es[index].key));
        document := document + name;
        document := document + if yamlCompatibility then ": " else ":";
        assert Valid(es[index].value);
        WriteValue(es[index].value);
      }
      document := document + "}";
    }

    static lemma FastFieldStep(document: string, fs: seq<Field>, k: nat, colon: string)
      requires k < |fs|
      ensures document + FastFields(fs, k, colon) ==
              (if k > 0 then document + "," else document) + JsonString.Quoted(fs[k].name) + colon
              + FastText(fs[k].value, colon) + FastFields(fs, k + 1, colon)
    {
      hide FastText, JsonString.Quoted;
      var name, a, b := JsonString.Quoted(fs[k].name), FastText(fs[k].value, colon), FastFields(fs, k + 1, colon);
      assert FastFields(fs, k, colon) == CommaText(k) + (name + (colon + (a + b)));
      Assoc(document, CommaText(k), name + (colon + (a + b)));
      Assoc(document + CommaText(k), name, colon + (a + b));
      Assoc(document + CommaText(k) + name, colon, a + b);
      Assoc(document + CommaText(k) + name + colon, a, b);
      assert document + "" == document;
    }
  }

  lemma SizeOfArray(es: seq<Entry>, show: real -> string)
    requires Valid(Arr(es))
    ensures ArraySize(es) >= 0 && (ArraySize(es) > 0 <==> es != [])
    ensures DocOf(Arr(es), show) == List(ItemDocs(es, ArraySize(es), show))
  {
  }

  lemma NothingLong()
    ensures TotalLength([]) == 0
  {
  }

  lemma LongerByOne(ds: seq<Doc>, k: nat)
    requires k < |ds|
    ensures TotalLength(ds[..k + 1]) == TotalLength(ds[..k]) + |FlatText(ds[k])|
  {
    assert ds[..k + 1][..k] == ds[..k];
  }

  lemma EmptyListText(indent: string, style: Style)
    ensures FlatText(List([])) == "[]" == Styled(List([]), indent, style)
  {
  }

  /** What is asked of valueToString(double). */
  ghost predicate ShowsSolid(show: real -> string) {
    forall r: real :: Solid(show(r))
  }

  lemma {:induction false} CleanDoc(v: Value, show: real -> string)
    requires Valid(v) && ShowsSolid(show)
    ensures Clean(DocOf(v, show))
    decreases Weight(v)
  {
    match v
    case Int(i) => SolidInt(i);
    case UInt(u) => SolidInt(u);
    case Str(s) => SolidQuoted(s);
    case Arr(es) =>
      SizeOfArray(es, show);
      var ds := ItemDocs(es, ArraySize(es), show);
      forall k | 0 <= k < |ds| ensures Clean(ds[k]) {
        ValidSlot(es, Index(k));
        CleanDoc(Lookup(es, Index(k)), show);
      }
    case Obj(es) =>
      var fs := FieldDocs(es, show);
      forall k | 0 <= k < |fs| ensures Clean(fs[k].value) {
        CleanDoc(es[k].value, show);
      }
    case _ =>
  }

  lemma SolidInt(i: int)
    ensures Solid(JsonNumber.IntText(i))
  {
    JsonNumber.IntTextShape(i);
    assert JsonNumber.IsNumberChar(JsonNumber.IntText(i)[|JsonNumber.IntText(i)| - 1]);
  }

  /** StyledWriter and StyledStreamWriter, which differ only in writeIndent and in the
      unit of indentation. `document` is the text written so far. */
  class StyledWriter {
    const show: real -> string
    const style: Style
    var childValues: seq<string>
    var document: string
    var indentString: string
    var addChildValues: bool

    /** StyledWriter, indentSize_ 3 */
    constructor (show: real -> string)
      ensures this.show == show && style == Style(false, "   ")
    {
      this.show, style := show, Style(false, "   ");
      childValues, document, indentString, addChildValues := [], "", "", false;
    }

    /** StyledStreamWriter */
    constructor ForStream(show: real -> string, indentation: string)
      ensures this.show == show && style == Style(true, indentation)
    {
      this.show, style := show, Style(true, indentation);
      childValues, document, indentString, addChildValues := [], "", "", false;
    }

    ghost predicate Usable() {
      (style.stream || style.unit == "   ") && ShowsSolid(show)
    }

    /** Where a value may be printed: writeIndent will not break the line here. */
    ghost predicate Ready()
      reads this
    {
      style.stream || (document == "" && indentString == "") || (document != "" && document[|document| - 1] == ' ')
    }

    /** Behind a piece of text, where writeIndent breaks the line. */
    ghost predicate BehindText()
      reads this
    {
      !addChildValues && EndsSolid(document)
    }

    method Write(root: Value) returns (result: string)
      requires Valid(root) && Usable()
      modifies this
      ensures result == document == Styled(DocOf(root, show), "", style) + "\n"
      ensures indentString == ""
    {
      document, addChildValues, indentString := "", false, "";
      WriteValue(root);
      document := document + "\n";
      result := document;
    }

    method PushValue(value: string)
      modifies this`childValues, this`document
      ensures if addChildValues then document == old(document) && childValues == old(childValues) + [value]
              else childValues == old(childValues) && document == old(document) + value
    {
      if addChildValues {
        childValues := childValues + [value];
      } else {
        document := document + value;
      }
    }

    method WriteIndent()
      modifies this`document
      ensures document ==
              if style.stream then old(document) + ("\n" + indentString)
              else if old(document) == "" then indentString
              else if old(document)[|old(document)| - 1] == ' ' then old(document)
              else if old(document)[|old(document)| - 1] != '\n' then old(document) + ("\n" + indentString)
              else old(document) + indentString
    {
      if style.stream {
        document := document + ("\n" + indentString);
        return;
      }
      if document != "" {
        var last := document[|document| - 1];
        if last == ' ' {
          return;
        }
        if last != '\n' {
          document := document + "\n";
        }
      }
      Assoc(old(document), "\n", indentString);
      document := document + indentString;
    }

    /** Opens a container where a value may be printed. */
    method WriteOpening(bracket: string)
      requires Ready()
      modifies this`document
      ensures document == old(document) + Opening(indentString, style) + bracket
    {
      WriteIndent();
      assert old(document) + "" == old(document);
      document := document + bracket;
    }

    /** Breaks the line after a piece of text. */
    method WriteLine(value: string)
      requires EndsSolid(document)
      modifies this`document
      ensures document == old(document) + ("\n" + indentString) + value
    {
      WriteIndent();
      document := document + value;
    }

    method Indent()
      modifies this`indentString
      ensures indentString == old(indentString) + style.unit
    {
      indentString := indentString + style.unit;
    }

    method Unindent()
      requires |indentString| >= |style.unit|
      modifies this`indentString
      ensures indentString == old(indentString)[..|old(indentString)| - |style.unit|]
    {
      indentString := indentString[..|indentString| - |style.unit|];
    }

    /** The document grows by the text of d, or the buffer by d as one piece; the
        indentation ends as it began. */
    twostate predicate Printed(d: Doc)
      reads this
    {
      && addChildValues == old(addChildValues) && indentString == old(indentString)
      && if old(addChildValues) then document == old(document) && childValues == old(childValues) + [FlatText(d)]
         else document == old(document) + Styled(d, indentString, style)
    }

    method WriteValue(value: Value)
      requires Valid(value) && Usable()
      requires if addChildValues then Flat(DocOf(value, show)) else Ready()
      modifies this
      ensures Printed(DocOf(value, show))
      decreases Weight(value), 0
    {
      match value
      case Arr(es) => WriteArrayValue(es);
      case Obj(es) => WriteObjectValue(es);
      case _ =>
        var text := ScalarText(value, show);
        PushValue(text);
    }

    method WriteMember(name: string, value: Value)
      requires Valid(value) && Usable() && BehindText()
      modifies this
      ensures BehindText() && indentString == old(indentString)
      ensures document == old(document) + ("\n" + indentString) + JsonString.Quoted(name) + " : "
                          + Styled(DocOf(value, show), indentString, style)
      decreases Weight(value), 1
    {
      hide DocOf, Styled, JsonString.Quoted, Valid, Flat;
      var text := JsonString.ValueToQuotedString(name);
      WriteLine(text);
      document := document + " : ";
      WriteValue(value);
      CleanDoc(value, show);
      StyledEndsSolid(DocOf(value, show), indentString, style);
      SolidEnd(old(document) + ("\n" + indentString) + text + " : ", Styled(DocOf(value, show), indentString, style));
    }

    method WriteObjectValue(es: seq<Entry>)
      requires Valid(Obj(es)) && Usable()
      requires if addChildValues then es == [] else Ready()
      modifies this
      ensures Printed(DocOf(Obj(es), show))
      decreases WeightAll(es), 3
    {
      if es == [] {
        PushValue("{}");
      } else {
        WriteMembers(es);
      }
    }

    method WriteMembers(es: seq<Entry>)
      requires Valid(Obj(es)) && Usable() && es != []
      requires !addChildValues && Ready()
      modifies this
      ensures !addChildValues && indentString == old(indentString)
      ensures document == old(document) + Styled(DocOf(Obj(es), show), indentString, style)
      decreases WeightAll(es), 2
    {
      hide DocOf, Styled, JsonString.Quoted, FieldTail, FieldLines, FieldDocs, Valid, Usable, Weight, WeightAll;
      ghost var fs, outer := FieldDocs(es, show), indentString;
      WriteOpening("{");
      Indent();
      ghost var goal := document + FieldLines(fs, 0, outer, style);
      FieldTailStart(document, fs, outer, style);
      var index := 0;
      while true
        invariant index < |es| && indentString == outer + style.unit && BehindText()
        invariant document + FieldTail(fs, index, outer, style) == goal
        decreases |es| - index
      {
        FieldStep(document, fs, index, outer, style);
        ValidMember(es, index);
        WriteMember(KeyText(es[index].key), es[index].value);
        index := index + 1;
        if index == |es| {
          break;
        }
        FieldTailNext(document, fs, index, outer, style);
        document := document + ",";
      }
      Unindent();
      FieldLinesEndText(document, fs, outer, style);
      WriteLine("}");
      FieldTextIs(old(document), es, fs, outer, style, show);
    }

    method WriteItemLine(value: Value)
      requires Valid(value) && Usable() && BehindText()
      requires style.stream || (indentString != "" && indentString[|indentString| - 1] == ' ')
      modifies this
      ensures BehindText() && indentString == old(indentString)
      ensures document == old(document) + ("\n" + indentString) + Styled(DocOf(value, show), indentString, style)
      decreases Weight(value), 1
    {
      hide DocOf, Styled, Valid, Flat;
      WriteIndent();
      WriteValue(value);
      CleanDoc(value, show);
      StyledEndsSolid(DocOf(value, show), indentString, style);
      SolidEnd(old(document) + ("\n" + indentString), Styled(DocOf(value, show), indentString, style));
    }

    /** childValues_ holds one piece per element. */
    ghost predicate Buffered(ds: seq<Doc>)
      reads this`childValues
    {
      |childValues| == |ds| && forall k :: 0 <= k < |ds| ==> Flat(ds[k]) && childValues[k] == FlatText(ds[k])
    }

    /** The first loop of isMultineArray. */
    method HasFilledContainer(es: seq<Entry>) returns (found: bool)
      requires Valid(Arr(es)) && es != []
      ensures var ds := ItemDocs(es, SizeOf(es), show); found <==> exists k :: 0 <= k < |ds| && !Flat(ds[k])
    {
      hide DocOf, Valid, Flat;
      SizeOfArray(es, show);
      var size := ArraySize(es);
      ghost var ds := ItemDocs(es, size, show);
      found := false;
      var index := 0;
      while index < size && !found
        invariant 0 <= index <= size
        invariant found <==> exists k :: 0 <= k < index && !Flat(ds[k])
      {
        var child := Lookup(es, Index(index));
        ValidSlot(es, Index(index));
        FlatValue(child, show);
        found := (child.Arr? && ArraySize(child.items) > 0) || (child.Obj? && |child.members| > 0);
        index := index + 1;
      }
    }

    /** The second loop of isMultineArray: prints the elements into the buffer. */
    method BufferElements(es: seq<Entry>) returns (lineLength: int)
      requires Valid(Arr(es)) && Usable() && es != [] && !addChildValues && childValues == []
      requires var ds := ItemDocs(es, SizeOf(es), show); forall k :: 0 <= k < |ds| ==> Flat(ds[k])
      modifies this
      ensures document == old(document) && indentString == old(indentString) && !addChildValues
      ensures var ds := ItemDocs(es, SizeOf(es), show);
              Buffered(ds) && lineLength == 4 + (|ds| - 1) * 2 + TotalLength(ds)
      decreases WeightAll(es), 1
    {
      hide DocOf, Valid, FlatText, Flat, Styled, Weight, WeightAll, Lookup, TotalLength;
      SizeOfArray(es, show);
      var size := ArraySize(es);
      ghost var ds := ItemDocs(es, size, show);
      NothingLong();
      addChildValues := true;
      lineLength := 4 + (size - 1) * 2;
      for index := 0 to size
        invariant addChildValues && document == old(document) && indentString == old(indentString)
        invariant |childValues| == index && forall k :: 0 <= k < index ==> childValues[k] == FlatText(ds[k])
        invariant lineLength == 4 + (size - 1) * 2 + TotalLength(ds[..index])
      {
        ValidSlot(es, Index(index));
        WriteValue(Lookup(es, Index(index)));
        LongerByOne(ds, index);
        lineLength := lineLength + |childValues[index]|;
      }
      assert ds[..size] == ds;
      addChildValues := false;
    }

    /** isMultineArray: also fills the buffer when the elements may fit in a row. */
    method IsMultilineArray(es: seq<Entry>) returns (isMultiline: bool)
      requires Valid(Arr(es)) && Usable() && es != [] && !addChildValues
      modifies this
      ensures document == old(document) && indentString == old(indentString) && !addChildValues
      ensures var ds := ItemDocs(es, SizeOf(es), show);
              isMultiline == Multiline(ds) && (childValues == [] || Buffered(ds)) && (!isMultiline ==> Buffered(ds))
      decreases WeightAll(es), 2
    {
      hide DocOf, Valid, FlatText, Flat;
      SizeOfArray(es, show);
      var size := ArraySize(es);
      isMultiline := size * 3 >= RIGHT_MARGIN;
      childValues := [];
      if !isMultiline {
        isMultiline := HasFilledContainer(es);
      }
      if !isMultiline {
        var lineLength := BufferElements(es);
        isMultiline := lineLength >= RIGHT_MARGIN;
      }
    }

    method WriteArrayValue(es: seq<Entry>)
      requires Valid(Arr(es)) && Usable()
      requires if addChildValues then es == [] else Ready()
      modifies this
      ensures Printed(DocOf(Arr(es), show))
      decreases WeightAll(es), 3
    {
      hide Valid, Multiline, Row, DocOf, Styled, Flat, FlatText, ItemLines, Lookup, Weight, WeightAll;
      SizeOfArray(es, show);
      var size := ArraySize(es);
      if size == 0 {
        assert ItemDocs(es, size, show) == [];
        EmptyListText(indentString, style);
        PushValue("[]");
        return;
      }
      var isArrayMultiline := IsMultilineArray(es);
      if isArrayMultiline {
        WriteItems(es);
      } else {
        WriteRow(es);
      }
    }

    method WriteItems(es: seq<Entry>)
      requires Valid(Arr(es)) && Usable() && es != []
      requires !addChildValues && Ready()
      requires var ds := ItemDocs(es, SizeOf(es), show);
               Multiline(ds) && (childValues == [] || Buffered(ds))
      modifies this
      ensures !addChildValues && indentString == old(indentString)
      ensures document == old(document) + Styled(DocOf(Arr(es), show), indentString, style)
      decreases WeightAll(es), 2
    {
      hide DocOf, Styled, ItemTail, ItemLines, Valid, FlatText, Flat, Multiline, Weight, WeightAll, Buffered, Lookup,
        ItemDocs;
      SizeOfArray(es, show);
      var size := ArraySize(es);
      ghost var ds, outer := ItemDocs(es, size, show), indentString;
      WriteOpening("[");
      Indent();
      var hasChildValue := childValues != [];
      ghost var goal := document + ItemLines(ds, 0, outer, style);
      ItemTailStart(document, ds, outer, style);
      var index := 0;
      while true
        invariant 0 <= index < size && indentString == outer + style.unit && BehindText()
        invariant hasChildValue ==> Buffered(ds)
        invariant document + ItemTail(ds, index, outer, style) == goal
        decreases size - index
      {
        ItemStep(document, ds, index, outer, style);
        WriteItem(es, index, hasChildValue, ds);
        index := index + 1;
        if index == size {
          break;
        }
        ItemTailNext(document, ds, index, outer, style);
        document := document + ",";
      }
      Unindent();
      ItemLinesEndText(document, ds, outer, style);
      WriteLine("]");
      ItemTextIs(old(document), es, ds, outer, style, show);
    }

    /** One element on a line of its own, from the buffer or by recursion. */
    method WriteItem(es: seq<Entry>, index: nat, hasChildValue: bool, ghost ds: seq<Doc>)
      requires Valid(Arr(es)) && Usable() && BehindText() && es != []
      requires style.stream || (indentString != "" && indentString[|indentString| - 1] == ' ')
      requires ds == ItemDocs(es, SizeOf(es), show) && index < |ds| && (hasChildValue ==> Buffered(ds))
      modifies this
      ensures BehindText() && indentString == old(indentString) && (hasChildValue ==> Buffered(ds))
      ensures document == old(document) + ("\n" + indentString) + Styled(ds[index], indentString, style)
      decreases WeightAll(es), 2, 0
    {
      hide DocOf, Styled, Valid, FlatText, Flat, Weight, WeightAll;
      SizeOfArray(es, show);
      ValidSlot(es, Index(index));
      if hasChildValue {
        CleanDoc(Lookup(es, Index(index)), show);
        WriteBuffered(childValues[index], ds[index]);
      } else {
        WriteItemLine(Lookup(es, Index(index)));
      }
    }

    /** An element whose text is in the buffer already. */
    method WriteBuffered(text: string, ghost d: Doc)
      requires BehindText() && Flat(d) && Clean(d) && text == FlatText(d)
      modifies this`document
      ensures BehindText() && document == old(document) + ("\n" + indentString) + Styled(d, indentString, style)
    {
      StyledEndsSolid(d, indentString, style);
      WriteLine(text);
      SolidEnd(old(document) + ("\n" + indentString), text);
    }

    /** The elements in a row. */
    method WriteRow(es: seq<Entry>)
      requires Valid(Arr(es)) && es != []
      requires var ds := ItemDocs(es, SizeOf(es), show); !Multiline(ds) && Buffered(ds)
      modifies this`document
      ensures document == old(document) + Styled(DocOf(Arr(es), show), indentString, style)
    {
      hide DocOf, Valid, FlatText, Flat, Multiline;
      SizeOfArray(es, show);
      var size := ArraySize(es);
      ghost var ds := ItemDocs(es, size, show);
      assert |childValues| == size;
      document := document + "[ ";
      Assoc(old(document), "[ ", Row(ds, 0));
      for index := 0 to size
        invariant document + Row(ds, index) == old(document) + ("[ " + Row(ds, 0))
      {
        RowStep(document, ds, index);
        if index > 0 {
          document := document + ", ";
        }
        document := document + childValues[index];
      }
      document := document + " ]";
      RowTextIs(es, ds, indentString, style, show);
    }
  }

  ghost function SizeOf(es: seq<Entry>): nat
    requires Valid(Arr(es))
  {
    SizeOfArray(es, _ => "");
    ArraySize(es)
  }

  /** pushValue prints in one piece exactly what has no elements. */
  lemma FlatValue(v: Value, show: real -> string)
    requires Valid(v)
    ensures Flat(DocOf(v, show)) <==> !((v.Arr? && ArraySize(v.items) > 0) || (v.Obj? && |v.members| > 0))
  {
  }

  /** An item line without the comma before it. */
  ghost function ItemTail(ds: seq<Doc>, k: nat, indent: string, style: Style): string
    requires k < |ds|
  {
    var inner := indent + style.unit;
    "\n" + (inner + (Styled(ds[k], inner, style) + ItemLines(ds, k + 1, indent, style)))
  }

  lemma ItemTailStart(document: string, ds: seq<Doc>, indent: string, style: Style)
    requires ds != []
    ensures document + ItemTail(ds, 0, indent, style) == document + ItemLines(ds, 0, indent, style)
  {
    hide Styled;
    assert "" + ItemTail(ds, 0, indent, style) == ItemTail(ds, 0, indent, style);
  }

  lemma ItemTailNext(document: string, ds: seq<Doc>, k: nat, indent: string, style: Style)
    requires 0 < k < |ds|
    ensures document + ItemLines(ds, k, indent, style) == document + "," + ItemTail(ds, k, indent, style)
  {
    hide Styled;
    Assoc(document, ",", ItemTail(ds, k, indent, style));
  }

  lemma ItemStep(document: string, ds: seq<Doc>, k: nat, indent: string, style: Style)
    requires k < |ds|
    ensures var inner := indent + style.unit;
            document + ItemTail(ds, k, indent, style) ==
            document + ("\n" + inner) + Styled(ds[k], inner, style) + ItemLines(ds, k + 1, indent, style)
  {
    hide Styled, ItemLines;
    var inner := indent + style.unit;
    var a, b := Styled(ds[k], inner, style), ItemLines(ds, k + 1, indent, style);
    Assoc("\n", inner, a + b);
    Assoc(document, "\n" + inner, a + b);
    Assoc(document + ("\n" + inner), a, b);
  }

  lemma ItemLinesEndText(document: string, ds: seq<Doc>, indent: string, style: Style)
    ensures document + ItemLines(ds, |ds|, indent, style) == document + ("\n" + indent) + "]"
  {
    Assoc("\n", indent, "]");
    Assoc(document, "\n" + indent, "]");
  }

  lemma ItemTextIs(document: string, es: seq<Entry>, ds: seq<Doc>, indent: string, style: Style, show: real -> string)
    requires ds != [] && DocOf(Arr(es), show) == List(ds) && Multiline(ds)
    ensures document + Opening(indent, style) + "[" + ItemLines(ds, 0, indent, style) ==
            document + Styled(DocOf(Arr(es), show), indent, style)
  {
    hide ItemLines, DocOf, Multiline;
    var a := ItemLines(ds, 0, indent, style);
    Assoc(document + Opening(indent, style), "[", a);
    Assoc(document, Opening(indent, style), "[" + a);
  }

  lemma RowStep(document: string, ds: seq<Doc>, k: nat)
    requires k < |ds|
    ensures document + Row(ds, k) == (if k > 0 then document + ", " else document) + FlatText(ds[k]) + Row(ds, k + 1)
  {
    hide FlatText;
    var comma, a, b := if k > 0 then ", " else "", FlatText(ds[k]), Row(ds, k + 1);
    Assoc(document, comma, a + b);
    Assoc(document + comma, a, b);
    assert document + "" == document;
  }

  lemma RowTextIs(es: seq<Entry>, ds: seq<Doc>, indent: string, style: Style, show: real -> string)
    requires ds != [] && DocOf(Arr(es), show) == List(ds) && !Multiline(ds)
    ensures Styled(DocOf(Arr(es), show), indent, style) == "[ " + Row(ds, 0)
    ensures Row(ds, |ds|) == " ]"
  {
    hide DocOf, Multiline;
  }

  predicate EndsSolid(s: string) {
    s != "" && s[|s| - 1] != ' ' && s[|s| - 1] != '\n'
  }

  lemma SolidEnd(a: string, b: string)
    requires EndsSolid(b)
    ensures EndsSolid(a + b)
  {
  }

  lemma ValidMember(es: seq<Entry>, k: nat)
    requires Valid(Obj(es)) && k < |es|
    ensures Valid(es[k].value) && Weight(es[k].value) <= WeightAll(es)
    ensures forall show: real -> string :: FieldDocs(es, show)[k] == Field(KeyText(es[k].key), DocOf(es[k].value, show))
  {
    WeightOfEntry(es, k);
  }

  /** A member line without the comma before it. */
  ghost function FieldTail(fs: seq<Field>, k: nat, indent: string, style: Style): string
    requires k < |fs|
  {
    var inner := indent + style.unit;
    "\n" + (inner + (JsonString.Quoted(fs[k].name) + (" : " +
      (Styled(fs[k].value, inner, style) + FieldLines(fs, k + 1, indent, style)))))
  }

  lemma FieldTailStart(document: string, fs: seq<Field>, indent: string, style: Style)
    requires fs != []
    ensures document + FieldTail(fs, 0, indent, style) == document + FieldLines(fs, 0, indent, style)
  {
    hide Styled, JsonString.Quoted;
    assert "" + FieldTail(fs, 0, indent, style) == FieldTail(fs, 0, indent, style);
  }

  lemma FieldTailNext(document: string, fs: seq<Field>, k: nat, indent: string, style: Style)
    requires 0 < k < |fs|
    ensures document + FieldLines(fs, k, indent, style) == document + "," + FieldTail(fs, k, indent, style)
  {
    hide Styled, JsonString.Quoted;
    Assoc(document, ",", FieldTail(fs, k, indent, style));
  }

  lemma FieldStep(document: string, fs: seq<Field>, k: nat, indent: string, style: Style)
    requires k < |fs|
    ensures var inner := indent + style.unit;
            document + FieldTail(fs, k, indent, style) ==
            document + ("\n" + inner) + JsonString.Quoted(fs[k].name) + " : " + Styled(fs[k].value, inner, style)
            + FieldLines(fs, k + 1, indent, style)
  {
    hide Styled, JsonString.Quoted, FieldLines;
    var inner := indent + style.unit;
    var name := JsonString.Quoted(fs[k].name);
    var a, b := Styled(fs[k].value, inner, style), FieldLines(fs, k + 1, indent, style);
    Assoc("\n", inner, name + (" : " + (a + b)));
    Assoc(document, "\n" + inner, name + (" : " + (a + b)));
    Assoc(document + ("\n" + inner), name, " : " + (a + b));
    Assoc(document + ("\n" + inner) + name, " : ", a + b);
    Assoc(document + ("\n" + inner) + name + " : ", a, b);
  }

  lemma FieldLinesEndText(document: string, fs: seq<Field>, indent: string, style: Style)
    ensures document + FieldLines(fs, |fs|, indent, style) == document + ("\n" + indent) + "}"
  {
    Assoc("\n", indent, "}");
    Assoc(document, "\n" + indent, "}");
  }

  lemma FieldTextIs(document: string, es: seq<Entry>, fs: seq<Field>, indent: string, style: Style,
          show: real -> string)
    requires es != [] && fs == FieldDocs(es, show)
    ensures document + Opening(indent, style) + "{" + FieldLines(fs, 0, indent, style) ==
            document + Styled(DocOf(Obj(es), show), indent, style)
  {
    hide FieldLines, FieldDocs;
    var a := FieldLines(fs, 0, indent, style);
    assert DocOf(Obj(es), show) == Record(fs) && |fs| == |es|;
    Assoc(document + Opening(indent, style), "{", a);
    Assoc(document, Opening(indent, style), "{" + a);
  }
}

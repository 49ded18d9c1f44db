/** The JSON pipeline end to end: what each writer prints, the reader reads back. */
module JsonPipeline {
  import opened Common
  import opened JsonValue
  import opened JsonDoc
  import opened JsonLayout
  import opened JsonParse
  import opened JsonRoundTrip
  import opened JsonNumber
  import opened Text
  import JsonScan
  import Reader = JsonReader
  import Writer = JsonWriter

  /** A document that begins with a text that spells the tokens of a value parses to the value,
      whatever follows that is not part of a number and whatever the features of the reader,
      except that a strict reader refuses a scalar root. */
  lemma SpelledTextParses(src: Source, text: string, v: Value, show: real -> string, root: Value)
    requires Valid(v) && Printable(v, show, src.scan)
    requires At(src.doc, 0, text) && Bounded(src.doc, |text|) && Spelled(text, Lexemes(DocOf(v, show)))
    ensures var r := Parse(src, root);
            r.node == Canon(v, show, src.scan) && r.ok == (!src.strictRoot || IsArrayOrObject(v))
  {
    hide ReadValue, Spells, Lexemes, DocOf, Printable, Canon;
    ReadsBack(src, 0, v, show, |text|, root, []);
    CanonKind(v, show, src.scan);
  }

  /** An array document whose elements are parted by any tokens parses to the array. */
  lemma LooseArrayParses(src: Source, es: seq<Entry>, show: real -> string, j: nat, root: Value)
    requires Valid(Arr(es)) && Printable(Arr(es), show, src.scan) && es != [] && ArraySize(es) > 0
    requires At(src.doc, JsonScan.SkipSpaces(src.doc, 0), ['['])
    requires LooseItems(src.doc, JsonScan.SkipSpaces(src.doc, 0) + 1, ItemDocs(es, ArraySize(es), show), 0, j)
    ensures Parse(src, root).ok && Parse(src, root).node == Canon(Arr(es), show, src.scan)
  {
    hide ReadValue, LooseItems, Printable, Canon, JsonScan.SkipSpaces;
    ReadsLooseArray(src, 0, es, show, j, root, []);
    CanonKind(Arr(es), show, src.scan);
  }

  lemma CanonKind(v: Value, show: real -> string, scan: string -> Option<real>)
    requires Printable(v, show, scan)
    ensures IsArrayOrObject(Canon(v, show, scan)) == IsArrayOrObject(v)
  {
  }

  /** Compact text, with or without YAML compatibility. */
  lemma CompactTextParses(src: Source, v: Value, colon: string, show: real -> string, root: Value)
    requires Valid(v) && Printable(v, show, src.scan) && Writer.ShowsSolid(show) && (colon == ":" || colon == ": ")
    requires src.doc == FastText(DocOf(v, show), colon) + "\n"
    ensures var r := Parse(src, root);
            r.node == Canon(v, show, src.scan) && r.ok == (!src.strictRoot || IsArrayOrObject(v))
  {
    hide Parse, Spelled, DocOf, Printable, Canon;
    Writer.CleanDoc(v, show);
    FastSpelled(DocOf(v, show), colon);
    SpelledTextParses(src, FastText(DocOf(v, show), colon), v, show, root);
  }

  /** Styled text, for every indentation of white space. */
  lemma StyledTextParses(src: Source, v: Value, style: Style, show: real -> string, root: Value)
    requires Valid(v) && Printable(v, show, src.scan) && Writer.ShowsSolid(show) && JsonScan.AllSpace(style.unit)
    requires src.doc == Styled(DocOf(v, show), "", style) + "\n"
    ensures var r := Parse(src, root);
            r.node == Canon(v, show, src.scan) && r.ok == (!src.strictRoot || IsArrayOrObject(v))
  {
    hide Parse, Spelled, DocOf, Printable, Canon;
    Writer.CleanDoc(v, show);
    StyledSpelled(DocOf(v, show), "", style);
    SpelledTextParses(src, Styled(DocOf(v, show), "", style), v, show, root);
  }

  /** Every array slot is filled, integers are in the decoder's range, no unsigned number
      would fit a signed one, and the C library reads back the reals it prints. */
  predicate Canonical(v: Value, show: real -> string, scan: string -> Option<real>) {
    match v
    case Int(i) => -2147483639 <= i
    case UInt(u) => MAX_INT < u <= 4294967289
    case Real(r) => !SmallInteger(show(r)) && scan(show(r)) == Some(r)
    case Arr(es) => forall k :: 0 <= k < |es| ==> es[k].key == Index(k) && Canonical(es[k].value, show, scan)
    case Obj(es) => forall k :: 0 <= k < |es| ==> Canonical(es[k].value, show, scan)
    case _ => true
  }

  lemma DenseArray(es: seq<Entry>)
    requires Valid(Arr(es)) && forall k :: 0 <= k < |es| ==> es[k].key == Index(k)
    ensures ArraySize(es) == |es|
    ensures forall k :: 0 <= k < |es| ==> Lookup(es, Index(k)) == es[k].value
  {
    forall k | 0 <= k < |es| ensures Lookup(es, Index(k)) == es[k].value {
      FindEntry(es, es[k]);
    }
  }

  /** The printed and reread tree equals the original exactly when the original is
      canonical: the round trip is the identity there and nowhere else. */
  lemma {:induction false} CanonIsIdentity(v: Value, show: real -> string, scan: string -> Option<real>)
    requires Valid(v) && Printable(v, show, scan)
    ensures Canon(v, show, scan) == v <==> Canonical(v, show, scan)
    decreases Weight(v), 0
  {
    match v
    case Int(i) => IntTextIsPlain(i);
    case UInt(u) => IntTextIsPlain(u);
    case Arr(es) => CanonOfArray(es, show, scan);
    case Obj(es) =>
      RecordCanon(es, show, scan);
      CanonOfEntries(es, show, scan);
      hide Canon;
      SameEntries(CanonMembers(es, |es|, show, scan), es);
    case _ =>
  }

  lemma SameEntries(es: seq<Entry>, fs: seq<Entry>)
    requires |es| == |fs| && forall k :: 0 <= k < |fs| ==> es[k].key == fs[k].key
    ensures es == fs <==> forall k :: 0 <= k < |fs| ==> es[k].value == fs[k].value
  {
    if forall k :: 0 <= k < |fs| ==> es[k].value == fs[k].value {
      assert forall k :: 0 <= k < |fs| ==> es[k] == fs[k];
    }
  }

  lemma CanonicalArray(es: seq<Entry>, show: real -> string, scan: string -> Option<real>)
    ensures Canonical(Arr(es), show, scan) <==>
            forall k :: 0 <= k < |es| ==> es[k].key == Index(k) && Canonical(es[k].value, show, scan)
    ensures Valid(Arr(es)) && Printable(Arr(es), show, scan) ==>
            forall k :: 0 <= k < |es| ==> Valid(es[k].value) && Printable(es[k].value, show, scan)
  {
  }

  /** The slots of a dense array, read back, are its entries exactly when every value is read back
      as it was. */
  lemma SlotsOfDense(es: seq<Entry>, show: real -> string, scan: string -> Option<real>)
    requires Valid(Arr(es)) && forall k :: 0 <= k < |es| ==> es[k].key == Index(k)
    ensures CanonItems(es, ArraySize(es), show, scan) == es
            <==> forall k :: 0 <= k < |es| ==> Canon(es[k].value, show, scan) == es[k].value
  {
    DenseArray(es);
    hide *;
    var items := CanonItems(es, ArraySize(es), show, scan);
    forall k | 0 <= k < |es| ensures items[k] == Entry(es[k].key, Canon(es[k].value, show, scan)) {
      assert es[k].key == Index(k);
    }
    SameEntries(items, es);
  }

  lemma SlotsOfSparse(es: seq<Entry>, items: seq<Entry>, k: nat)
    requires k < |es| && es[k].key != Index(k) && forall x :: 0 <= x < |items| ==> items[x].key == Index(x)
    ensures items != es
  {
    assert |items| > k ==> items[k].key == Index(k);
  }

  lemma {:induction false} CanonOfArray(es: seq<Entry>, show: real -> string, scan: string -> Option<real>)
    requires Valid(Arr(es)) && Printable(Arr(es), show, scan)
    ensures Canon(Arr(es), show, scan) == Arr(es) <==> Canonical(Arr(es), show, scan)
    decreases WeightAll(es), 2
  {
    hide *;
    ListCanon(es, show, scan);
    CanonicalArray(es, show, scan);
    CanonOfEntries(es, show, scan);
    if forall k :: 0 <= k < |es| ==> es[k].key == Index(k) {
      SlotsOfDense(es, show, scan);
    } else {
      var k :| 0 <= k < |es| && es[k].key != Index(k);
      SlotsOfSparse(es, CanonItems(es, ArraySize(es), show, scan), k);
    }
  }

  lemma {:induction false} CanonOfEntries(es: seq<Entry>, show: real -> string, scan: string -> Option<real>)
    requires forall k :: 0 <= k < |es| ==> Valid(es[k].value) && Printable(es[k].value, show, scan)
    ensures forall k :: 0 <= k < |es| ==>
              (Canon(es[k].value, show, scan) == es[k].value <==> Canonical(es[k].value, show, scan))
    decreases WeightAll(es), 1
  {
    hide Canon, Canonical, Valid, Printable;
    forall k | 0 <= k < |es|
      ensures Canon(es[k].value, show, scan) == es[k].value <==> Canonical(es[k].value, show, scan)
    {
      WeightOfEntry(es, k);
      CanonIsIdentity(es[k].value, show, scan);
    }
  }

  /** Reader::parse(FastWriter::write(v)) */
  method CompactRoundTrip(v: Value, show: real -> string, scan: string -> Option<real>) returns (ok: bool,
          result: Value)
    requires Valid(v) && Printable(v, show, scan) && Writer.ShowsSolid(show)
    ensures ok && result == Canon(v, show, scan)
    ensures Equal(result, v) <==> Canonical(v, show, scan)
  {
    hide Valid, Printable, Canon, Canonical, Parse, FastText, DocOf, Equal;
    var writer := new Writer.FastWriter(show);
    var text := writer.Write(v);
    var reader := new Reader.Reader(true, false, scan);
    ok, result := reader.Parse(text, Null);
    CompactTextParses(Source(text, true, false, scan), v, ":", show, Null);
    CanonIsIdentity(v, show, scan);
    EqualIsIdentity(result, v);
  }

  /** Both styled writers print what the compact writer prints, up to white space. */
  method StyledRoundTrip(v: Value, indentation: string, show: real -> string, scan: string -> Option<real>)
    returns (ok: bool, styled: Value, streamed: Value)
    requires Valid(v) && Printable(v, show, scan) && Writer.ShowsSolid(show) && JsonScan.AllSpace(indentation)
    ensures ok && styled == streamed == Canon(v, show, scan)
  {
    hide Valid, Printable, Canon, Parse, Styled, DocOf;
    var writer := new Writer.StyledWriter(show);
    var text := writer.Write(v);
    var streamWriter := new Writer.StyledWriter.ForStream(show, indentation);
    var streamText := streamWriter.Write(v);
    var reader := new Reader.Reader(true, false, scan);
    var first;
    first, styled := reader.Parse(text, Null);
    ok, streamed := reader.Parse(streamText, Null);
    StyledTextParses(Source(text, true, false, scan), v, writer.style, show, Null);
    StyledTextParses(Source(streamText, true, false, scan), v, streamWriter.style, show, Null);
    ok := ok && first;
  }
}

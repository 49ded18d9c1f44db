/** Which trees the reader of json/src/json_reader.cpp builds, and that printing a document it has
    read and reading the text gives the same tree. */
module JsonReprint {
  import opened Common
  import opened JsonValue
  import opened JsonDoc
  import opened JsonLayout
  import opened JsonParse
  import opened JsonRoundTrip
  import opened JsonGrammar
  import opened JsonPipeline
  import opened JsonNumber
  import JsonScan
  import Reader = JsonReader
  import Writer = JsonWriter

  /** Arrays without gaps, integers in the decoder's range, of which only those that no signed
      integer can hold are unsigned, and sorted maps of C strings. */
  predicate Parsed(v: Value) {
    match v
    case Int(i) => -2147483639 <= i <= MAX_INT
    case UInt(u) => MAX_INT < u <= 4294967289
    case Str(s) => '\0' !in s
    case Arr(es) => forall k :: 0 <= k < |es| ==> es[k].key == Index(k) && Parsed(es[k].value)
    case Obj(es) =>
      Sorted(es) && forall k :: 0 <= k < |es| ==> es[k].key.Name? && '\0' !in es[k].key.name && Parsed(es[k].value)
    case _ => true
  }

  /** What is asked of the C library: each real of the tree is shown as a number that is read as
      that real. */
  predicate RealsReread(v: Value, show: real -> string, scan: string -> Option<real>) {
    match v
    case Real(r) => NumberText(show(r), scan) && !SmallInteger(show(r)) && scan(show(r)) == Some(r)
    case Arr(es) => forall k :: 0 <= k < |es| ==> RealsReread(es[k].value, show, scan)
    case Obj(es) => forall k :: 0 <= k < |es| ==> RealsReread(es[k].value, show, scan)
    case _ => true
  }

  // ---------------------------------------------------------------- what is read

  lemma {:induction false} AccumulatesBelow(digits: string, threshold: int, value: int)
    requires 0 <= value < 10 * threshold
    ensures var r := Accumulate(digits, threshold, value); r.Total? ==> 0 <= r.value < 10 * threshold
    decreases |digits|
  {
    if digits != "" && IsDigit(digits[0]) && value < threshold {
      AccumulatesBelow(digits[1..], threshold, value * 10 + DigitValue(digits[0]));
    }
  }

  lemma NumberIsParsed(text: string, scan: string -> Option<real>)
    ensures DecodeNumber(text, scan).Some? ==> Parsed(DecodeNumber(text, scan).value)
  {
    hide LooksReal, Accumulate;
    var negative := IsNegative(text);
    AccumulatesBelow(if negative then text[1..] else text, Threshold(negative), 0);
  }

  lemma {:induction false} CStrHasNoNul(s: string)
    ensures '\0' !in CStr(s)
  {
    if s != "" && s[0] != '\0' {
      CStrHasNoNul(s[1..]);
    }
  }

  lemma ScalarIsParsed(src: Source, t: JsonScan.Token)
    requires InDoc(src, t) && ScalarOf(src, t).Some?
    ensures Parsed(ScalarOf(src, t).value)
  {
    hide DecodeNumber, DecodeToken, CStr;
    if t.kind == JsonScan.Number {
      NumberIsParsed(TokenText(src.doc, t), src.scan);
    } else if t.kind == JsonScan.StringToken {
      match DecodeToken(src.doc, t)
      case Text(s) => CStrHasNoNul(s);
      case BadText(_, _) =>
    }
  }

  /** What any tree means is a value that can be read. */
  lemma {:induction false} MeaningIsParsed(src: Source, tree: Tree)
    ensures Parsed(Meaning(src, tree))
    decreases tree
  {
    hide ScalarOf, Slots, Bound;
    match tree
    case Scalar(t) =>
      if InDoc(src, t) && ScalarOf(src, t).Some? {
        ScalarIsParsed(src, t);
      }
    case EmptyArray(_, _) =>
    case Array(_, es) => SlotsAreParsed(src, es);
    case Object(_, ms, _) => BoundIsParsed(src, [], ms);
  }

  lemma {:induction false} SlotsAreParsed(src: Source, es: seq<Element>)
    ensures Parsed(Arr(Slots(src, es, 0)))
    decreases es
  {
    hide Meaning, Slots;
    var r := Slots(src, es, 0);
    forall k | 0 <= k < |r| ensures r[k].key == Index(k) && Parsed(r[k].value) {
      SlotAt(src, es, 0, k);
      assert es[k].value < es[k];
      MeaningIsParsed(src, es[k].value);
    }
  }

  lemma {:induction false} SlotAt(src: Source, es: seq<Element>, n: nat, k: nat)
    requires k < |es|
    ensures Slots(src, es, n)[k] == Entry(Index(n + k), Meaning(src, es[k].value))
    decreases k
  {
    hide Meaning;
    if k > 0 {
      SlotAt(src, es[1..], n + 1, k - 1);
    }
  }

  lemma {:induction false} BoundIsParsed(src: Source, done: seq<Entry>, ms: seq<Member>)
    requires Parsed(Obj(done))
    ensures Parsed(Obj(Bound(src, done, ms)))
    decreases ms
  {
    hide Meaning, Put, Parsed, CStr;
    if ms != [] {
      assert ms[0].value < ms[0];
      MeaningIsParsed(src, ms[0].value);
      CStrHasNoNul(ms[0].text);
      PutIsParsed(done, CStr(ms[0].text), Meaning(src, ms[0].value));
      BoundIsParsed(src, Put(done, Name(CStr(ms[0].text)), Meaning(src, ms[0].value)), ms[1..]);
    }
  }

  lemma PutIsParsed(done: seq<Entry>, name: string, value: Value)
    requires Parsed(Obj(done)) && Parsed(value) && '\0' !in name
    ensures Parsed(Obj(Put(done, Name(name), value)))
  {
    hide Put, Sorted;
    var es := Put(done, Name(name), value);
    PutIsMapUpdate(done, Name(name), value);
    forall k | 0 <= k < |es| ensures es[k].key.Name? && '\0' !in es[k].key.name && Parsed(es[k].value) {
      assert es[k] in es;
    }
  }

  lemma {:induction false} ParsedIsValid(v: Value)
    requires Parsed(v)
    ensures Valid(v)
    decreases v
  {
    match v
    case Arr(es) =>
      forall k | 0 <= k < |es| ensures Valid(es[k].value) {
        assert es[k].value < es[k];
        ParsedIsValid(es[k].value);
      }
    case Obj(es) =>
      forall k | 0 <= k < |es| ensures Valid(es[k].value) {
        assert es[k].value < es[k];
        ParsedIsValid(es[k].value);
      }
    case _ =>
  }

  /** A document that is read with success is a tree that the writers take. */
  lemma ParseIsValid(src: Source, root: Value)
    requires Parse(src, root).ok
    ensures Parsed(Parse(src, root).node) && Valid(Parse(src, root).node)
  {
    hide Parse, Meaning, Stands, Parsed, Valid;
    var tree := ParseIsSound(src, root);
    MeaningIsParsed(src, tree);
    ParsedIsValid(Parse(src, root).node);
  }

  // ---------------------------------------------------------------- reading, printing, reading

  /** The trees that printing and reading leaves as they are. */
  predicate Reprintable(v: Value, show: real -> string, scan: string -> Option<real>) {
    Valid(v) && Printable(v, show, scan) && Canonical(v, show, scan)
  }

  /** They are those that can be read at all. */
  lemma {:induction false} ParsedExactlyCanonical(v: Value, show: real -> string, scan: string -> Option<real>)
    ensures Reprintable(v, show, scan) <==> Parsed(v) && RealsReread(v, show, scan)
    decreases v
  {
    match v
    case Int(i) => ReadableInt(i, scan);
    case UInt(u) => ReadableInt(u, scan);
    case Arr(es) => EntriesExactlyCanonical(es, show, scan);
    case Obj(es) => EntriesExactlyCanonical(es, show, scan);
    case _ =>
  }

  lemma {:induction false} EntriesExactlyCanonical(es: seq<Entry>, show: real -> string, scan: string -> Option<real>)
    ensures forall k :: 0 <= k < |es| ==>
              (Reprintable(es[k].value, show, scan) <==> Parsed(es[k].value) && RealsReread(es[k].value, show, scan))
    decreases es
  {
    hide Reprintable, Parsed, RealsReread;
    forall k | 0 <= k < |es|
      ensures Reprintable(es[k].value, show, scan) <==> Parsed(es[k].value) && RealsReread(es[k].value, show, scan)
    {
      assert es[k].value < es[k];
      ParsedExactlyCanonical(es[k].value, show, scan);
    }
  }

  lemma ReadableInt(i: int, scan: string -> Option<real>)
    ensures -2147483639 <= i <= 4294967289 ==> NumberText(IntText(i), scan)
  {
    IntTextIsPlain(i);
  }

  /** A document that is read, printed by either writer and read again gives the same tree, if its
      reals do. */
  lemma ReadPrintRead(src: Source, root: Value, again: Source, show: real -> string, old_: Value)
    requires Parse(src, root).ok && RealsReread(Parse(src, root).node, show, src.scan) && Writer.ShowsSolid(show)
    requires again.scan == src.scan
    requires var d := DocOf(Parse(src, root).node, show);
             || again.doc == FastText(d, ":") + "\n" || again.doc == FastText(d, ": ") + "\n"
             || exists style: Style :: JsonScan.AllSpace(style.unit) && again.doc == Styled(d, "", style) + "\n"
    ensures var v, r := Parse(src, root).node, Parse(again, old_);
            r.node == v && r.ok == (!again.strictRoot || IsArrayOrObject(v))
  {
    hide Parse, Parsed, RealsReread, Valid, Printable, Canonical, Canon, DocOf, FastText, Styled;
    var v := Parse(src, root).node;
    ParseIsValid(src, root);
    ParsedExactlyCanonical(v, show, src.scan);
    CanonIsIdentity(v, show, src.scan);
    var d := DocOf(v, show);
    if style: Style :| JsonScan.AllSpace(style.unit) && again.doc == Styled(d, "", style) + "\n" {
      StyledTextParses(again, v, style, show, old_);
    } else if again.doc == FastText(d, ":") + "\n" {
      CompactTextParses(again, v, ":", show, old_);
    } else {
      CompactTextParses(again, v, ": ", show, old_);
    }
  }

  /** The trees that some document is read as are those without gaps and within the ranges. */
  lemma ReadsExactlyParsed(v: Value, allowComments: bool, show: real -> string, scan: string -> Option<real>)
    requires RealsReread(v, show, scan) && Writer.ShowsSolid(show)
    ensures Parsed(v) <==>
              exists doc :: var r := Parse(Source(doc, allowComments, false, scan), Null); r.ok && r.node == v
  {
    hide Parse, Parsed, RealsReread, Valid, Printable, Canonical, Canon, DocOf, FastText;
    if Parsed(v) {
      ParsedExactlyCanonical(v, show, scan);
      CanonIsIdentity(v, show, scan);
      var src := Source(FastText(DocOf(v, show), ":") + "\n", allowComments, false, scan);
      CompactTextParses(src, v, ":", show, Null);
      assert Parse(Source(src.doc, allowComments, false, scan), Null).ok;
    }
    if doc :| Parse(Source(doc, allowComments, false, scan), Null).ok
              && Parse(Source(doc, allowComments, false, scan), Null).node == v {
      ParseIsValid(Source(doc, allowComments, false, scan), Null);
    }
  }

  /** Reader::parse, FastWriter::write and Reader::parse once more. */
  method ReadWriteRead(document: string, show: real -> string, scan: string -> Option<real>)
    returns (ok: bool, first: Value, again: bool, second: Value)
    requires Writer.ShowsSolid(show)
    ensures ok ==> Valid(first) && (RealsReread(first, show, scan) ==> again && second == first)
  {
    hide Parse, Parsed, RealsReread, Valid, DocOf, FastText;
    var reader := new Reader.Reader(true, false, scan);
    ok, first := reader.Parse(document, Null);
    again, second := false, Null;
    if ok {
      var src := Source(document, true, false, scan);
      ParseIsValid(src, Null);
      var writer := new Writer.FastWriter(show);
      var text := writer.Write(first);
      again, second := reader.Parse(text, Null);
      if RealsReread(first, show, scan) {
        ReadPrintRead(src, Null, Source(text, true, false, scan), show, Null);
      }
    }
  }
}

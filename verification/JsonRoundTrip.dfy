/** Parsing undoes printing, for every layout of the printed token sequence. */
module JsonRoundTrip {
  import opened Common
  import opened JsonValue
  import opened JsonScan
  import opened JsonDoc
  import opened JsonParse
  import opened Text
  import opened JsonNumber
  import JsonString

  /** The value of a number text: an integer in the decoder's range, or what the C library scans. */
  function Reread(text: string, scan: string -> Option<real>): Value {
    var n := IntegerValue(text);
    if SmallInteger(text) then (if n <= 0x7fff_ffff then Int(n) else UInt(n))
    else match scan(text)
      case Some(r) => Real(r)
      case None => Null
  }

  /** What a printed tree reads back as: arrays have every slot filled, and a number is
      whatever its text decodes to. */
  function Canon(v: Value, show: real -> string, scan: string -> Option<real>): Value
    decreases Weight(v), 0, 0
  {
    match v
    case Int(i) => Reread(IntText(i), scan)
    case UInt(u) => Reread(IntText(u), scan)
    case Real(r) => Reread(show(r), scan)
    case Arr(es) => Arr(CanonItems(es, if ArraySize(es) > 0 then ArraySize(es) else 0, show, scan))
    case Obj(es) => Obj(CanonMembers(es, |es|, show, scan))
    case _ => v
  }

  function CanonItems(es: seq<Entry>, n: nat, show: real -> string, scan: string -> Option<real>): (r: seq<Entry>)
    requires n > 0 ==> es != []
    ensures |r| == n
    ensures forall k :: 0 <= k < n ==> r[k] == Entry(Index(k), Canon(Lookup(es, Index(k)), show, scan))
    decreases WeightAll(es), 1, n
  {
    if n == 0 then []
    else CanonItems(es, n - 1, show, scan) + [Entry(Index(n - 1), Canon(Lookup(es, Index(n - 1)), show, scan))]
  }

  function CanonMembers(es: seq<Entry>, n: nat, show: real -> string, scan: string -> Option<real>): (r: seq<Entry>)
    requires n <= |es|
    ensures |r| == n
    ensures forall k :: 0 <= k < n ==>
      WeightAll(es) >= Weight(es[k].value) && r[k] == Entry(es[k].key, Canon(es[k].value, show, scan))
    decreases WeightAll(es), 1, n
  {
    if n == 0 then []
    else
      WeightOfEntry(es, n - 1);
      CanonMembers(es, n - 1, show, scan) + [Entry(es[n - 1].key, Canon(es[n - 1].value, show, scan))]
  }

  /** The text of a number token, which the C library scans unless it is an integer in the decoder's
      range. */
  predicate NumberText(text: string, scan: string -> Option<real>) {
    && text != "" && (text[0] == '-' || '0' <= text[0] <= '9') && NumberCharacters(text)
    && (SmallInteger(text) || scan(text).Some?)
  }

  lemma NumberTextDecodes(text: string, scan: string -> Option<real>)
    requires NumberText(text, scan)
    ensures DecodeNumber(text, scan) == Some(Reread(text, scan))
    ensures forall k :: 0 <= k < |text| ==> IsNumberChar(text[k])
  {
    DecodesExactly(text, scan);
    forall k | 0 <= k < |text| ensures IsNumberChar(text[k]) {
      NumberCharacter(text[k]);
    }
  }

  /** What is asked of the C library: it reads the numbers it is given, those of the
      tree's reals and those of the integers that decodeNumber leaves to it. */
  predicate Printable(v: Value, show: real -> string, scan: string -> Option<real>) {
    match v
    case Int(i) => NumberText(IntText(i), scan)
    case UInt(u) => NumberText(IntText(u), scan)
    case Real(r) => NumberText(show(r), scan)
    case Arr(es) => forall k :: 0 <= k < |es| ==> Printable(es[k].value, show, scan)
    case Obj(es) => forall k :: 0 <= k < |es| ==> Printable(es[k].value, show, scan)
    case _ => true
  }

  lemma PrintableSlot(es: seq<Entry>, key: Key, show: real -> string, scan: string -> Option<real>)
    requires Valid(Arr(es)) && Printable(Arr(es), show, scan)
    ensures Valid(Lookup(es, key)) && Printable(Lookup(es, key), show, scan)
  {
    var p := Find(es, key);
    if p < |es| {
      assert Valid(es[p].value) && Printable(es[p].value, show, scan);
    }
  }

  // ---------------------------------------------------------------- single tokens

  /** A number that ends at j is not continued there. */
  predicate Bounded(doc: string, j: nat) {
    j < |doc| ==> !IsNumberChar(doc[j])
  }

  lemma NumberTokenAt(doc: string, k: nat, text: string)
    requires At(doc, k, text) && Bounded(doc, k + |text|)
    requires text != "" && (text[0] == '-' || IsDigit(text[0]))
    requires forall x :: 0 <= x < |text| ==> IsNumberChar(text[x])
    ensures TokenAt(doc, k) == Token(Number, k, k + |text|)
    ensures doc[k..k + |text|] == text
  {
    AtSlice(doc, k, text);
    AtIndex(doc, k, text, 0);
    forall p | k <= p < k + |text| ensures IsNumberChar(doc[p]) {
      AtIndex(doc, k, text, p - k);
    }
    var stop := SkipNumber(doc, k + 1);
  }

  function PunctuationKind(c: char): TokenKind {
    if c == '{' then ObjectBegin
    else if c == '}' then ObjectEnd
    else if c == '[' then ArrayBegin
    else if c == ']' then ArrayEnd
    else if c == ',' then ArraySeparator
    else MemberSeparator
  }

  predicate IsPunctuation(c: char) {
    c == '{' || c == '}' || c == '[' || c == ']' || c == ',' || c == ':'
  }

  /** However the reader asks for the next token, behind white space or not, it is t. */
  predicate NextIs(doc: string, i: nat, t: Token)
    requires i <= |doc|
  {
    t.start <= t.end <= |doc| && ReadToken(doc, i) == t && t.kind != Comment
  }

  lemma NextIsAnyway(doc: string, i: nat, t: Token, allowComments: bool)
    requires i <= |doc| && NextIs(doc, i, t)
    ensures PassComments(doc, ReadToken(doc, i)) == t && NextToken(doc, i, allowComments) == t
  {
  }

  /** Punctuation, possibly behind white space, is one token; a number ends before it. */
  lemma PunctuationToken(doc: string, i: nat, c: char)
    requires i <= |doc| && IsPunctuation(c) && At(doc, SkipSpaces(doc, i), [c])
    ensures var k := SkipSpaces(doc, i);
            NextIs(doc, i, Token(PunctuationKind(c), k, k + 1)) && CharAt(doc, k) == c && Bounded(doc, i)
  {
    AtIndex(doc, SkipSpaces(doc, i), [c], 0);
    assert i < SkipSpaces(doc, i) ==> IsSpace(doc[i]);
  }

  // ---------------------------------------------------------------- steps of the reader

  lemma ReadsWord(src: Source, i: nat, v: Value, node: Value, errors: Errors)
    requires v.Null? || v.Bool?
    requires i <= |src.doc| && At(src.doc, SkipSpaces(src.doc, i), Word(v))
    ensures ReadValue(src, i, node, errors) == Outcome(true, SkipSpaces(src.doc, i) + |Word(v)|, v, errors)
  {
    var k := SkipSpaces(src.doc, i);
    var kind := if v.Null? then NullToken else if v.b then TrueToken else FalseToken;
    WordToken(src.doc, k, v);
    hide TokenAt, Word, At;
    NextIsAnyway(src.doc, i, Token(kind, k, k + |Word(v)|), src.allowComments);
  }

  function Word(v: Value): string
    requires v.Null? || v.Bool?
  {
    if v.Null? then "null" else BoolText(v.b)
  }

  lemma WordToken(doc: string, k: nat, v: Value)
    requires (v.Null? || v.Bool?) && At(doc, k, Word(v))
    ensures TokenAt(doc, k) ==
            Token(if v.Null? then NullToken else if v.b then TrueToken else FalseToken, k, k + |Word(v)|)
  {
    hide At, Word, JsonString.StringEnd, CommentEnd, SkipNumber;
    WordParts(v);
    WordAt(doc, k, Word(v), WordStart(v), WordRest(v));
  }

  function WordStart(v: Value): char {
    if v.Null? then 'n' else if v.Bool? && v.b then 't' else 'f'
  }

  function WordRest(v: Value): string {
    if v.Null? then "ull" else if v.Bool? && v.b then "rue" else "alse"
  }

  lemma WordParts(v: Value)
    requires v.Null? || v.Bool?
    ensures Word(v) == [WordStart(v)] + WordRest(v)
  {
  }

  lemma WordAt(doc: string, k: nat, word: string, first: char, rest: string)
    requires At(doc, k, word) && word == [first] + rest
    ensures k < |doc| && doc[k] == first && At(doc, k + 1, rest)
  {
    AtConcat(doc, k, [first], rest);
    AtIndex(doc, k, [first], 0);
  }

  /** A quoted string, possibly behind white space, is one token with its text. */
  lemma StringTokenAt(doc: string, i: nat, s: string)
    requires i <= |doc| && At(doc, SkipSpaces(doc, i), JsonString.Quoted(s))
    ensures var k := SkipSpaces(doc, i);
            var t := Token(StringToken, k, k + |JsonString.Quoted(s)|);
            NextIs(doc, i, t) && t.start + 2 <= t.end && DecodeToken(doc, t) == JsonString.Text(s)
  {
    hide JsonString.Quoted, JsonString.StringEnd, JsonString.DecodeBody, SkipSpaces;
    JsonString.QuotedRoundTrip(doc, SkipSpaces(doc, i), s);
  }

  lemma ReadsQuoted(src: Source, i: nat, s: string, node: Value, errors: Errors)
    requires i <= |src.doc| && At(src.doc, SkipSpaces(src.doc, i), JsonString.Quoted(s)) && '\0' !in s
    ensures ReadValue(src, i, node, errors) ==
            Outcome(true, SkipSpaces(src.doc, i) + |JsonString.Quoted(s)|, Str(s), errors)
  {
    hide JsonString.Quoted, JsonString.DecodeBody, TokenAt;
    StringTokenAt(src.doc, i, s);
    NextIsAnyway(src.doc, i, ReadToken(src.doc, i), src.allowComments);
    CStrOfNulFree(s);
  }

  lemma ReadsNumber(src: Source, i: nat, text: string, v: Value, node: Value, errors: Errors)
    requires i <= |src.doc| && At(src.doc, SkipSpaces(src.doc, i), text)
    requires Bounded(src.doc, SkipSpaces(src.doc, i) + |text|)
    requires text != "" && (text[0] == '-' || IsDigit(text[0]))
    requires forall x :: 0 <= x < |text| ==> IsNumberChar(text[x])
    requires DecodeNumber(text, src.scan) == Some(v)
    ensures ReadValue(src, i, node, errors) == Outcome(true, SkipSpaces(src.doc, i) + |text|, v, errors)
  {
    var k := SkipSpaces(src.doc, i);
    NumberTokenAt(src.doc, k, text);
    hide TokenAt, DecodeNumber, At;
    NextIsAnyway(src.doc, i, Token(Number, k, k + |text|), src.allowComments);
  }

  lemma ElementStep(src: Source, i: nat, es: seq<Entry>, index: nat, m: nat, v: Value, t: Token, errors: Errors)
    requires i <= |src.doc| && m <= |src.doc|
    requires ReadValue(src, i, Lookup(es, Index(index)), errors) == Outcome(true, m, v, errors)
    requires NextIs(src.doc, m, t)
    ensures var grown := Arr(Put(es, Index(index), v));
            ReadElements(src, i, Arr(es), index, errors) ==
            if t.kind == ArrayEnd then Outcome(true, t.end, grown, errors)
            else ReadElements(src, t.end, grown, index + 1, errors)
  {
    hide ReadValue, ReadToken, Put, Lookup;
    NextIsAnyway(src.doc, m, t, src.allowComments);
  }

  lemma MemberStep(src: Source, i: nat, es: seq<Entry>, last: string, name: string, colon: nat, m: nat, v: Value,
          t: Token, errors: Errors)
    requires i <= |src.doc| && m <= |src.doc| && colon <= |src.doc|
    requires var s := ReadToken(src.doc, i);
             && NextIs(src.doc, i, s) && s.kind == StringToken
             && DecodeToken(src.doc, s) == JsonString.Text(name)
             && ReadToken(src.doc, s.end).kind == MemberSeparator && ReadToken(src.doc, s.end).end == colon
    requires '\0' !in name
    requires ReadValue(src, colon, Lookup(es, Name(name)), errors) == Outcome(true, m, v, errors)
    requires NextIs(src.doc, m, t) && (t.kind == ObjectEnd || t.kind == ArraySeparator)
    ensures var grown := Obj(Put(es, Name(name), v));
            ReadMembers(src, i, Obj(es), last, errors) ==
            if t.kind == ObjectEnd then Outcome(true, t.end, grown, errors)
            else ReadMembers(src, t.end, grown, name, errors)
  {
    hide ReadValue, ReadToken, Put, Lookup, DecodeToken, Recover;
    NextIsAnyway(src.doc, i, ReadToken(src.doc, i), src.allowComments);
    NextIsAnyway(src.doc, m, t, src.allowComments);
    CStrOfNulFree(name);
  }

  lemma OpeningStep(src: Source, i: nat, c: char, node: Value, errors: Errors)
    requires i <= |src.doc| && (c == '[' || c == '{') && At(src.doc, SkipSpaces(src.doc, i), [c])
    ensures var k := SkipSpaces(src.doc, i);
            k < |src.doc| && ReadValue(src, i, node, errors) ==
            if c == '[' then ReadArray(src, k + 1, errors) else ReadMembers(src, k + 1, Obj([]), "", errors)
  {
    hide ReadToken, ReadArray, ReadMembers;
    var k := SkipSpaces(src.doc, i);
    PunctuationToken(src.doc, i, c);
    NextIsAnyway(src.doc, i, Token(PunctuationKind(c), k, k + 1), src.allowComments);
  }

  // ---------------------------------------------------------------- trees

  /** The lexeme a scalar prints as is one token and reads back as the scalar. */
  lemma ReadsScalar(src: Source, i: nat, v: Value, show: real -> string, j: nat, node: Value, errors: Errors)
    requires Valid(v) && Printable(v, show, src.scan) && !v.Arr? && !v.Obj?
    requires i <= |src.doc| && Spells(src.doc, i, Lexemes(DocOf(v, show)), j) && Bounded(src.doc, j)
    ensures ReadValue(src, i, node, errors) == Outcome(true, j, Canon(v, show, src.scan), errors)
  {
    hide ReadValue, ReadToken, SkipSpaces, DecodeNumber, IntText, JsonString.Quoted, CStr, Reread, SmallInteger,
      NumberCharacters;
    var k, text := SkipSpaces(src.doc, i), DocOf(v, show).text;
    assert Lexemes(DocOf(v, show))[1..] == [];
    assert At(src.doc, k, text) && j == k + |text|;
    match v
    case Null => ReadsWord(src, i, v, node, errors);
    case Bool(b) => ReadsWord(src, i, v, node, errors);
    case Str(s) => ReadsQuoted(src, i, s, node, errors);
    case _ =>
      NumberTextDecodes(text, src.scan);
      ReadsNumber(src, i, text, Canon(v, show, src.scan), node, errors);
  }

  lemma FirstLexeme(v: Value, show: real -> string, scan: string -> Option<real>)
    requires Valid(v) && Printable(v, show, scan)
    ensures var l := Lexemes(DocOf(v, show));
            l != [] && l[0] != "" && l[0][0] != ']' && !IsSpace(l[0][0])
  {
    match v
    case Int(n) => IntTextShape(n);
    case UInt(n) => IntTextShape(n);
    case _ =>
  }

  lemma ItemLexemesStep(ds: seq<Doc>, k: nat)
    requires k <= |ds|
    ensures var l := ItemLexemes(ds, k);
            if k == |ds| then l == ["]"]
            else if k == 0 then l == Lexemes(ds[0]) + ItemLexemes(ds, 1)
            else l != [] && l[0] == [','] && l[1..] == Lexemes(ds[k]) + ItemLexemes(ds, k + 1)
  {
    hide Lexemes;
    if k < |ds| {
      var rest := Lexemes(ds[k]) + ItemLexemes(ds, k + 1);
      assert Comma(0) + rest == rest;
    }
  }

  lemma FieldLexemesStep(fs: seq<Field>, k: nat)
    requires k <= |fs|
    ensures var l := FieldLexemes(fs, k);
            if k == |fs| then l == ["}"]
            else
              var member := [JsonString.Quoted(fs[k].name), ":"] + (Lexemes(fs[k].value) + FieldLexemes(fs, k + 1));
              if k == 0 then l == member else l != [] && l[0] == [','] && l[1..] == member
  {
    hide Lexemes, JsonString.Quoted;
    if k < |fs| {
      var member := [JsonString.Quoted(fs[k].name), ":"] + (Lexemes(fs[k].value) + FieldLexemes(fs, k + 1));
      assert Comma(0) + member == member;
    }
  }

  /** A punctuation token, what is read there and what is spelled after it. */
  lemma SpellsHead(doc: string, m: nat, c: char, lexemes: seq<string>, j: nat)
    requires m <= |doc| && IsPunctuation(c) && lexemes != [] && lexemes[0] == [c] && Spells(doc, m, lexemes, j)
    ensures var k := SkipSpaces(doc, m);
            && NextIs(doc, m, Token(PunctuationKind(c), k, k + 1)) && CharAt(doc, k) == c && k < |doc|
            && Bounded(doc, m) && At(doc, k, [c]) && Spells(doc, k + 1, lexemes[1..], j)
            && (|lexemes| == 1 ==> j == k + 1)
  {
    hide TokenAt;
    PunctuationToken(doc, m, c);
  }

  /** From position i on the document spells the items from the k-th on, up to the closing
      bracket that ends at j; what parts two items is any one token but a closing bracket. */
  ghost predicate LooseItems(doc: string, i: nat, ds: seq<Doc>, k: nat, j: nat)
    requires i <= |doc| && k < |ds|
    decreases |ds| - k, 1
  {
    exists m: nat :: m <= |doc| && LooseItem(doc, i, ds, k, m, j)
  }

  /** And item k ends at m. */
  ghost predicate LooseItem(doc: string, i: nat, ds: seq<Doc>, k: nat, m: nat, j: nat)
    requires i <= |doc| && m <= |doc| && k < |ds|
    decreases |ds| - k, 0
  {
    var t := ReadToken(doc, m);
    && Spells(doc, i, Lexemes(ds[k]), m) && Bounded(doc, m) && t.kind != Comment
    && if k + 1 == |ds| then t.kind == ArrayEnd && j == t.end
       else t.kind != ArrayEnd && LooseItems(doc, t.end, ds, k + 1, j)
  }

  /** Items parted by commas are parted by tokens. */
  lemma {:induction false} PrintedItemsAreLoose(doc: string, i: nat, ds: seq<Doc>, k: nat, j: nat)
    requires i <= |doc| && k < |ds| && Spells(doc, i, Lexemes(ds[k]) + ItemLexemes(ds, k + 1), j)
    ensures LooseItems(doc, i, ds, k, j)
    decreases |ds| - k
  {
    hide ReadToken, SkipSpaces, Lexemes, ItemLexemes, Spells, Bounded;
    var m := SpellsSplit(doc, i, Lexemes(ds[k]), ItemLexemes(ds, k + 1), j);
    ItemLexemesStep(ds, k + 1);
    SpellsHead(doc, m, if k + 1 < |ds| then ',' else ']', ItemLexemes(ds, k + 1), j);
    if k + 1 < |ds| {
      PrintedItemsAreLoose(doc, SkipSpaces(doc, m) + 1, ds, k + 1, j);
    }
    assert LooseItem(doc, i, ds, k, m, j);
  }

  /** ReadElements goes through the slots from slot k on, whatever token parts them. */
  lemma {:induction false} ReadsItems(src: Source, i: nat, es: seq<Entry>, n: nat, k: nat, show: real -> string,
          j: nat, errors: Errors)
    requires Valid(Arr(es)) && Printable(Arr(es), show, src.scan) && es != [] && k < n == ArraySize(es)
    requires i <= |src.doc| && LooseItems(src.doc, i, ItemDocs(es, n, show), k, j)
    ensures ReadElements(src, i, Arr(CanonItems(es, k, show, src.scan)), k, errors) ==
            Outcome(true, j, Arr(CanonItems(es, n, show, src.scan)), errors)
    decreases WeightAll(es), 1, n - k
  {
    hide ReadValue, ReadElements, ReadToken, SkipSpaces, Lookup, Put, Valid, Printable, Lexemes, ItemLexemes, Spells,
      DocOf, Canon, Bounded;
    var doc, ds, slot := src.doc, ItemDocs(es, n, show), Lookup(es, Index(k));
    var done := CanonItems(es, k, show, src.scan);
    var m: nat :| m <= |doc| && LooseItem(doc, i, ds, k, m, j);
    var t := ReadToken(doc, m);
    PrintableSlot(es, Index(k), show, src.scan);
    ReadsBack(src, i, slot, show, m, Lookup(done, Index(k)), errors);
    PutAtEnd(done, Index(k), Canon(slot, show, src.scan));
    ElementStep(src, i, done, k, m, Canon(slot, show, src.scan), t, errors);
    if k + 1 < n {
      ReadsItems(src, t.end, es, n, k + 1, show, j, errors);
    }
  }

  /** Reading a text that spells the tokens of a tree, whatever white space is between
      them, gives the tree back and ends where its last token ends. */
  lemma {:induction false} ReadsBack(src: Source, i: nat, v: Value, show: real -> string, j: nat, node: Value,
          errors: Errors)
    requires Valid(v) && Printable(v, show, src.scan)
    requires i <= |src.doc| && Spells(src.doc, i, Lexemes(DocOf(v, show)), j) && Bounded(src.doc, j)
    ensures ReadValue(src, i, node, errors) == Outcome(true, j, Canon(v, show, src.scan), errors)
    decreases Weight(v), 0, 0
  {
    hide ReadValue, Spells, Lexemes, DocOf, Canon;
    match v
    case Arr(es) => ReadsArray(src, i, es, show, j, node, errors);
    case Obj(es) => ReadsObject(src, i, es, show, j, node, errors);
    case _ => ReadsScalar(src, i, v, show, j, node, errors);
  }

  lemma ListLexemes(es: seq<Entry>, show: real -> string)
    requires Valid(Arr(es))
    ensures ArraySize(es) >= 0 && (es != [] ==> ArraySize(es) > 0)
    ensures var ds, l := ItemDocs(es, ArraySize(es), show), Lexemes(DocOf(Arr(es), show));
            l != [] && l[0] == ['['] && l[1..] == ItemLexemes(ds, 0)
  {
    hide ItemLexemes;
  }

  lemma ListCanon(es: seq<Entry>, show: real -> string, scan: string -> Option<real>)
    requires Valid(Arr(es))
    ensures ArraySize(es) >= 0 && (es != [] ==> ArraySize(es) > 0)
    ensures Canon(Arr(es), show, scan) == Arr(CanonItems(es, ArraySize(es), show, scan))
  {
    hide CanonItems;
  }

  lemma {:induction false} ReadsArray(src: Source, i: nat, es: seq<Entry>, show: real -> string, j: nat,
          node: Value, errors: Errors)
    requires Valid(Arr(es)) && Printable(Arr(es), show, src.scan)
    requires i <= |src.doc| && Spells(src.doc, i, Lexemes(DocOf(Arr(es), show)), j)
    ensures ReadValue(src, i, node, errors) == Outcome(true, j, Canon(Arr(es), show, src.scan), errors)
    decreases WeightAll(es), 2, 1
  {
    hide ReadValue, ReadElements, ReadToken, NextIs, SkipSpaces, Lookup, Valid, Printable, Lexemes, ItemLexemes,
      Spells, DocOf, Canon, CanonItems, Bounded, LooseItems;
    var doc, k := src.doc, SkipSpaces(src.doc, i);
    ListLexemes(es, show);
    ListCanon(es, show, src.scan);
    var ds := ItemDocs(es, ArraySize(es), show);
    SpellsHead(doc, i, '[', Lexemes(DocOf(Arr(es), show)), j);
    ItemLexemesStep(ds, 0);
    if es == [] {
      OpeningStep(src, i, '[', node, errors);
      SpellsHead(doc, k + 1, ']', ItemLexemes(ds, 0), j);
    } else {
      PrintedItemsAreLoose(doc, k + 1, ds, 0, j);
      ReadsLooseArray(src, i, es, show, j, node, errors);
    }
  }

  /** An array is read as the same array whatever tokens stand between its elements: the
      separator test of readArray never fires. */
  lemma {:induction false} ReadsLooseArray(src: Source, i: nat, es: seq<Entry>, show: real -> string, j: nat,
          node: Value, errors: Errors)
    requires Valid(Arr(es)) && Printable(Arr(es), show, src.scan) && es != [] && ArraySize(es) > 0
    requires i <= |src.doc| && At(src.doc, SkipSpaces(src.doc, i), ['['])
    requires LooseItems(src.doc, SkipSpaces(src.doc, i) + 1, ItemDocs(es, ArraySize(es), show), 0, j)
    ensures ReadValue(src, i, node, errors) == Outcome(true, j, Canon(Arr(es), show, src.scan), errors)
    decreases WeightAll(es), 2, 0
  {
    hide ReadValue, ReadElements, ReadToken, NextIs, SkipSpaces, Lookup, Valid, Printable, Lexemes, ItemLexemes,
      Spells, DocOf, Canon, Bounded, LooseItems;
    var doc, k := src.doc, SkipSpaces(src.doc, i);
    ListCanon(es, show, src.scan);
    OpeningStep(src, i, '[', node, errors);
    var first := SkipSpaces(doc, k + 1);
    LooseItemsAfterGap(src, k + 1, es, show, j);
    ReadsItems(src, first, es, ArraySize(es), 0, show, j, errors);
  }

  /** White space before the first item belongs to it, and the item is not a closing bracket. */
  lemma LooseItemsAfterGap(src: Source, i: nat, es: seq<Entry>, show: real -> string, j: nat)
    requires Valid(Arr(es)) && Printable(Arr(es), show, src.scan) && es != [] && ArraySize(es) > 0
    requires i <= |src.doc| && LooseItems(src.doc, i, ItemDocs(es, ArraySize(es), show), 0, j)
    ensures var first := SkipSpaces(src.doc, i);
            CharAt(src.doc, first) != ']' && LooseItems(src.doc, first, ItemDocs(es, ArraySize(es), show), 0, j)
  {
    hide ReadToken, SkipSpaces, Lookup, Valid, Printable, Lexemes, Spells, DocOf, Bounded;
    var ds, first := ItemDocs(es, ArraySize(es), show), SkipSpaces(src.doc, i);
    var m: nat :| m <= |src.doc| && LooseItem(src.doc, i, ds, 0, m, j);
    assert Lexemes(ds[0]) + [] == Lexemes(ds[0]);
    NotClosing(src, i, es, show, [], m);
    SpellsFromFirst(src.doc, i, Lexemes(ds[0]), m);
    assert LooseItem(src.doc, first, ds, 0, m, j);
  }

  lemma SpellsFromFirst(doc: string, i: nat, lexemes: seq<string>, j: nat)
    requires i <= |doc| && lexemes != [] && Spells(doc, i, lexemes, j)
    ensures Spells(doc, SkipSpaces(doc, i), lexemes, j)
  {
    var k := SkipSpaces(doc, i);
    SkipsTo(doc, k, k);
  }

  lemma NotClosing(src: Source, i: nat, es: seq<Entry>, show: real -> string, more: seq<string>, j: nat)
    requires Valid(Arr(es)) && Printable(Arr(es), show, src.scan)
    requires i <= |src.doc| && Spells(src.doc, i, Lexemes(DocOf(Lookup(es, Index(0)), show)) + more, j)
    ensures CharAt(src.doc, SkipSpaces(src.doc, i)) != ']'
    ensures Lexemes(DocOf(Lookup(es, Index(0)), show)) != []
  {
    hide SkipSpaces, Lexemes, Valid, Printable, DocOf, Lookup;
    var l := Lexemes(DocOf(Lookup(es, Index(0)), show));
    PrintableSlot(es, Index(0), show, src.scan);
    FirstLexeme(Lookup(es, Index(0)), show, src.scan);
    assert (l + more)[0] == l[0];
    AtIndex(src.doc, SkipSpaces(src.doc, i), l[0], 0);
  }

  /** ReadMembers goes through the printed members from member k on. */
  lemma {:induction false} ReadsFields(src: Source, i: nat, es: seq<Entry>, k: nat, show: real -> string, j: nat,
          last: string, errors: Errors)
    requires Valid(Obj(es)) && Printable(Obj(es), show, src.scan) && k < |es|
    requires i <= |src.doc|
    requires var fs := FieldDocs(es, show);
             Spells(src.doc, i,
               [JsonString.Quoted(fs[k].name), ":"] + (Lexemes(fs[k].value) + FieldLexemes(fs, k + 1)), j)
    ensures ReadMembers(src, i, Obj(CanonMembers(es, k, show, src.scan)), last, errors) ==
            Outcome(true, j, Obj(CanonMembers(es, |es|, show, src.scan)), errors)
    decreases WeightAll(es), 1, |es| - k
  {
    var v := es[k].value;
    assert Valid(v) && Printable(v, show, src.scan);
    assert es[k].key.Name? && '\0' !in es[k].key.name;
    assert forall x :: 0 <= x < k ==> KeyLess(es[x].key, es[k].key);
    ReadsField(src, i, es, k, v, show, j, last, errors);
  }

  lemma {:induction false} ReadsField(src: Source, i: nat, es: seq<Entry>, k: nat, v: Value, show: real -> string,
          j: nat, last: string, errors: Errors)
    requires Valid(Obj(es)) && Printable(Obj(es), show, src.scan) && k < |es|
    requires Valid(v) && Printable(v, show, src.scan) && v == es[k].value && es[k].key.Name? && '\0' !in es[k].key.name
    requires forall x :: 0 <= x < k ==> KeyLess(es[x].key, es[k].key)
    requires i <= |src.doc|
    requires var fs := FieldDocs(es, show);
             Spells(src.doc, i,
               [JsonString.Quoted(fs[k].name), ":"] + (Lexemes(fs[k].value) + FieldLexemes(fs, k + 1)), j)
    ensures ReadMembers(src, i, Obj(CanonMembers(es, k, show, src.scan)), last, errors) ==
            Outcome(true, j, Obj(CanonMembers(es, |es|, show, src.scan)), errors)
    decreases WeightAll(es), 1, |es| - k, 0
  {
    hide ReadValue, ReadMembers, ReadToken, NextIs, SkipSpaces, Lookup, Put, Valid, Printable, Lexemes,
      FieldLexemes, FieldDocs, Spells, DocOf, Canon, Bounded, DecodeToken, JsonString.Quoted, KeyLess, Weight,
      WeightAll;
    var doc, fs, name := src.doc, FieldDocs(es, show), es[k].key.name;
    var done, more := CanonMembers(es, k, show, src.scan), k + 1 < |es|;
    var colon, m := FieldTokens(src, i, fs, k, j);
    ReadsBack(src, colon, v, show, m, Lookup(done, Name(name)), errors);
    PutAtEnd(done, Name(name), Canon(v, show, src.scan));
    var next := SkipSpaces(doc, m);
    MemberStep(src, i, done, last, name, colon, m, Canon(v, show, src.scan),
      Token(if more then ArraySeparator else ObjectEnd, next, next + 1), errors);
    if more {
      ReadsFields(src, next + 1, es, k + 1, show, j, name, errors);
    }
  }

  /** The tokens of a member: its name, its colon, its value up to m, and the comma or the
      brace after it. */
  lemma FieldTokens(src: Source, i: nat, fs: seq<Field>, k: nat, j: nat) returns (colon: nat, m: nat)
    requires i <= |src.doc| && k < |fs|
    requires Spells(src.doc, i,
               [JsonString.Quoted(fs[k].name), ":"] + (Lexemes(fs[k].value) + FieldLexemes(fs, k + 1)), j)
    ensures var s := ReadToken(src.doc, i);
            && NextIs(src.doc, i, s) && s.kind == StringToken
            && DecodeToken(src.doc, s) == JsonString.Text(fs[k].name)
            && ReadToken(src.doc, s.end).kind == MemberSeparator && ReadToken(src.doc, s.end).end == colon
    ensures colon <= |src.doc| && m <= |src.doc|
    ensures Bounded(src.doc, m) && Spells(src.doc, colon, Lexemes(fs[k].value), m)
    ensures var next, more := SkipSpaces(src.doc, m), k + 1 < |fs|;
            && next < |src.doc|
            && NextIs(src.doc, m, Token(if more then ArraySeparator else ObjectEnd, next, next + 1))
            && (if more then
                  Spells(src.doc, next + 1,
                    [JsonString.Quoted(fs[k + 1].name), ":"]
                    + (Lexemes(fs[k + 1].value) + FieldLexemes(fs, k + 2)), j)
                else j == next + 1)
  {
    hide ReadToken, NextIs, SkipSpaces, Lexemes, FieldLexemes, Spells, Bounded, DecodeToken, JsonString.Quoted;
    colon := ReadsName(src, i, fs[k].name, Lexemes(fs[k].value) + FieldLexemes(fs, k + 1), j);
    m := SpellsSplit(src.doc, colon, Lexemes(fs[k].value), FieldLexemes(fs, k + 1), j);
    FieldLexemesStep(fs, k + 1);
    SpellsHead(src.doc, m, if k + 1 < |fs| then ',' else '}', FieldLexemes(fs, k + 1), j);
  }

  lemma SpellsFirst(doc: string, i: nat, lexemes: seq<string>, j: nat)
    requires i <= |doc| && lexemes != [] && Spells(doc, i, lexemes, j)
    ensures var k := SkipSpaces(doc, i);
            At(doc, k, lexemes[0]) && Spells(doc, k + |lexemes[0]|, lexemes[1..], j)
  {
    hide SkipSpaces;
  }

  /** A quoted member name and its colon are the next two tokens. */
  lemma ReadsName(src: Source, i: nat, name: string, rest: seq<string>, j: nat) returns (colon: nat)
    requires i <= |src.doc|
    requires Spells(src.doc, i, [JsonString.Quoted(name), ":"] + rest, j)
    ensures colon <= |src.doc| && Spells(src.doc, colon, rest, j)
    ensures var s := ReadToken(src.doc, i);
            && NextIs(src.doc, i, s) && s.kind == StringToken
            && DecodeToken(src.doc, s) == JsonString.Text(name)
            && ReadToken(src.doc, s.end).kind == MemberSeparator && ReadToken(src.doc, s.end).end == colon
  {
    hide JsonString.Quoted, DecodeToken, SkipSpaces, TokenAt, Spells, ReadToken;
    var doc, start, text := src.doc, SkipSpaces(src.doc, i), JsonString.Quoted(name);
    var lexemes := [text, ":"] + rest;
    assert lexemes[0] == text && lexemes[1..][0] == [':'] && lexemes[1..][1..] == rest;
    SpellsFirst(doc, i, lexemes, j);
    StringTokenAt(doc, i, name);
    SpellsHead(doc, start + |text|, ':', lexemes[1..], j);
    colon := SkipSpaces(doc, start + |text|) + 1;
  }

  lemma RecordLexemes(es: seq<Entry>, show: real -> string)
    ensures var fs, l := FieldDocs(es, show), Lexemes(DocOf(Obj(es), show));
            l != [] && l[0] == ['{'] && l[1..] == FieldLexemes(fs, 0)
  {
    hide FieldLexemes, FieldDocs;
    assert DocOf(Obj(es), show) == Record(FieldDocs(es, show));
  }

  lemma RecordCanon(es: seq<Entry>, show: real -> string, scan: string -> Option<real>)
    ensures Canon(Obj(es), show, scan) == Obj(CanonMembers(es, |es|, show, scan))
  {
    hide CanonMembers;
  }

  lemma {:induction false} ReadsObject(src: Source, i: nat, es: seq<Entry>, show: real -> string, j: nat,
          node: Value, errors: Errors)
    requires Valid(Obj(es)) && Printable(Obj(es), show, src.scan)
    requires i <= |src.doc| && Spells(src.doc, i, Lexemes(DocOf(Obj(es), show)), j)
    ensures ReadValue(src, i, node, errors) == Outcome(true, j, Canon(Obj(es), show, src.scan), errors)
    decreases WeightAll(es), 2, 0
  {
    hide ReadValue, ReadMembers, ReadToken, SkipSpaces, Valid, Printable, Lexemes, FieldLexemes, FieldDocs, Spells,
      DocOf, Bounded, JsonString.Quoted, Canon, Weight, WeightAll;
    RecordCanon(es, show, src.scan);
    var doc, k, fs := src.doc, SkipSpaces(src.doc, i), FieldDocs(es, show);
    RecordLexemes(es, show);
    SpellsHead(doc, i, '{', Lexemes(DocOf(Obj(es), show)), j);
    OpeningStep(src, i, '{', node, errors);
    FieldLexemesStep(fs, 0);
    if es == [] {
      SpellsHead(doc, k + 1, '}', FieldLexemes(fs, 0), j);
      ClosesAtOnce(src, k + 1, errors);
    } else {
      ReadsFields(src, k + 1, es, 0, show, j, "", errors);
    }
  }

  lemma ClosesAtOnce(src: Source, i: nat, errors: Errors)
    requires i <= |src.doc| && ReadToken(src.doc, i).kind == ObjectEnd
    ensures ReadMembers(src, i, Obj([]), "", errors) == Outcome(true, ReadToken(src.doc, i).end, Obj([]), errors)
  {
  }
}

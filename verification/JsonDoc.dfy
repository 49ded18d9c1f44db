/** Printed documents. A value is printed as a tree of texts; the tree has a token
    sequence, a compact text and a styled text (json/src/json_writer.cpp), and both
    texts spell exactly the token sequence. */
module JsonDoc {
  import opened JsonValue
  import opened JsonScan
  import opened Text
  import JsonNumber
  import JsonString

  datatype Doc = Leaf(text: string) | List(items: seq<Doc>) | Record(fields: seq<Field>)

  datatype Field = Field(name: string, value: Doc)

  function BoolText(b: bool): string {
    if b then "true" else "false"
  }

  /** The tree of texts of a value; `show` stands for valueToString(double). Arrays
      have one item per slot, and an empty slot prints as null. */
  function DocOf(v: Value, show: real -> string): Doc
    decreases Weight(v), 0, 0
  {
    match v
    case Null => Leaf("null")
    case Int(i) => Leaf(JsonNumber.IntText(i))
    case UInt(u) => Leaf(JsonNumber.IntText(u))
    case Real(r) => Leaf(show(r))
    case Str(s) => Leaf(JsonString.Quoted(s))
    case Bool(b) => Leaf(BoolText(b))
    case Arr(es) => List(ItemDocs(es, if ArraySize(es) > 0 then ArraySize(es) else 0, show))
    case Obj(es) => Record(FieldDocs(es, show))
  }

  function ItemDocs(es: seq<Entry>, n: nat, show: real -> string): (ds: seq<Doc>)
    requires n > 0 ==> es != []
    ensures |ds| == n
    ensures forall k :: 0 <= k < n ==> ds[k] == DocOf(Lookup(es, Index(k)), show)
    decreases WeightAll(es), 1, n
  {
    if n == 0 then [] else ItemDocs(es, n - 1, show) + [DocOf(Lookup(es, Index(n - 1)), show)]
  }

  function KeyText(key: Key): string {
    match key
    case Name(name) => name
    case Index(_) => ""
  }

  function FieldDocs(es: seq<Entry>, show: real -> string): (fs: seq<Field>)
    ensures |fs| == |es|
    ensures forall k :: 0 <= k < |es| ==>
      WeightAll(es) >= Weight(es[k].value) && fs[k] == Field(KeyText(es[k].key), DocOf(es[k].value, show))
    decreases WeightAll(es), 1, |es|
  {
    if es == [] then []
    else
      assert forall k :: 1 <= k < |es| ==> es[k] == es[1..][k - 1];
      [Field(KeyText(es[0].key), DocOf(es[0].value, show))] + FieldDocs(es[1..], show)
  }

  // ---------------------------------------------------------------- token sequence

  function Lexemes(d: Doc): seq<string> {
    match d
    case Leaf(text) => [text]
    case List(ds) => ["["] + ItemLexemes(ds, 0)
    case Record(fs) => ["{"] + FieldLexemes(fs, 0)
  }

  function Comma(k: nat): seq<string> {
    if k > 0 then [","] else []
  }

  function ItemLexemes(ds: seq<Doc>, k: nat): seq<string>
    requires k <= |ds|
    decreases ds, |ds| - k
  {
    if k == |ds| then ["]"] else Comma(k) + (Lexemes(ds[k]) + ItemLexemes(ds, k + 1))
  }

  function FieldLexemes(fs: seq<Field>, k: nat): seq<string>
    requires k <= |fs|
    decreases fs, |fs| - k
  {
    if k == |fs| then ["}"]
    else
      assert fs[k].value < fs[k];
      Comma(k) + ([JsonString.Quoted(fs[k].name), ":"] + (Lexemes(fs[k].value) + FieldLexemes(fs, k + 1)))
  }

  /** doc[i..j] is the given lexemes, each with any white space before it. */
  predicate Spells(doc: string, i: nat, lexemes: seq<string>, j: nat): (b: bool)
    requires i <= |doc|
    ensures b ==> i <= j <= |doc|
    decreases |lexemes|
  {
    if lexemes == [] then i == j
    else
      var k := SkipSpaces(doc, i);
      At(doc, k, lexemes[0]) && Spells(doc, k + |lexemes[0]|, lexemes[1..], j)
  }

  lemma {:induction false} SpellsConcat(doc: string, i: nat, a: seq<string>, m: nat, b: seq<string>, j: nat)
    requires i <= |doc| && Spells(doc, i, a, m)
    requires m <= |doc| && Spells(doc, m, b, j)
    ensures Spells(doc, i, a + b, j)
    decreases |a|
  {
    if a == [] {
      assert a + b == b;
    } else {
      assert (a + b)[0] == a[0] && (a + b)[1..] == a[1..] + b;
      SpellsConcat(doc, SkipSpaces(doc, i) + |a[0]|, a[1..], m, b, j);
    }
  }

  lemma {:induction false} SpellsSplit(doc: string, i: nat, a: seq<string>, b: seq<string>, j: nat) returns (m: nat)
    requires i <= |doc| && Spells(doc, i, a + b, j)
    ensures i <= m <= |doc| && Spells(doc, i, a, m) && Spells(doc, m, b, j)
    decreases |a|
  {
    if a == [] {
      assert a + b == b;
      m := i;
    } else {
      assert (a + b)[0] == a[0] && (a + b)[1..] == a[1..] + b;
      m := SpellsSplit(doc, SkipSpaces(doc, i) + |a[0]|, a[1..], b, j);
    }
  }

  lemma SkipsTo(doc: string, i: nat, k: nat)
    requires i <= k <= |doc| && forall x :: i <= x < k ==> IsSpace(doc[x])
    requires k < |doc| ==> !IsSpace(doc[k])
    ensures SkipSpaces(doc, i) == k
  {
  }

  /** White space in front of a spelled text belongs to it. */
  lemma SpellsAfterGap(doc: string, i: nat, k: nat, lexemes: seq<string>, j: nat)
    requires i <= k <= |doc| && forall x :: i <= x < k ==> IsSpace(doc[x])
    requires lexemes != []
    ensures Spells(doc, k, lexemes, j) <==> Spells(doc, i, lexemes, j)
  {
    SkipsTo(doc, i, SkipSpaces(doc, k));
  }

  /** A lexeme that does not start with white space spells itself. */
  lemma SpellsOne(doc: string, i: nat, lexeme: string)
    requires At(doc, i, lexeme) && lexeme != "" && !IsSpace(lexeme[0])
    ensures Spells(doc, i, [lexeme], i + |lexeme|)
  {
    assert doc[i + 0] == lexeme[0];
    assert SkipSpaces(doc, i) == i;
  }
}

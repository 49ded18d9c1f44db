/** GUID text of uuid/Guid.h and uuid/Guid.cpp: printing in the formats D, N, B and P,
    and the parser that skips separators. */
module GuidText {
  import opened Text

  /** The eleven numbers of a GUID: Data1, Data2, Data3 and the bytes of Data4. */
  const WIDTHS: seq<nat> := [8, 4, 4, 2, 2, 2, 2, 2, 2, 2, 2]

  function Pow16(n: nat): nat {
    if n == 0 then 1 else 16 * Pow16(n - 1)
  }

  // ---------------------------------------------------------------- hexadecimal text

  predicate IsSeparator(c: char) {
    c == '-' || c == '{' || c == '}' || c == ',' || c == '(' || c == ')'
  }

  lemma SeparatorExactly(c: char)
    ensures IsSeparator(c) <==> c in "-{},()"
  {
    var all := "-{},()";
    assert IsSeparator(c) ==> c == all[0] || c == all[1] || c == all[2] || c == all[3] || c == all[4] || c == all[5];
  }

  predicate AllSeparators(s: string) {
    forall k :: 0 <= k < |s| ==> IsSeparator(s[k])
  }

  function HexDigit(d: nat): char
    requires d < 16
  {
    if d < 10 then ('0' as int + d) as char else ('a' as int + d - 10) as char
  }

  /** %0{w}x */
  function HexText(v: nat, w: nat): (t: string)
    ensures |t| == w
  {
    if w == 0 then "" else HexText(v / 16, w - 1) + [HexDigit(v % 16)]
  }

  /** Digit k of a number from the right. */
  function Nibble(v: nat, k: nat): (d: nat)
    ensures d < 16
  {
    if k == 0 then v % 16 else Nibble(v / 16, k - 1)
  }

  /** The text has the digits of the number in their order, the letters in lower case. */
  lemma {:induction false} HexTextIs(v: nat, w: nat, k: nat)
    requires k < w
    ensures HexText(v, w)[k] == "0123456789abcdef"[Nibble(v, w - 1 - k)]
    decreases w
  {
    if k < w - 1 {
      HexTextIs(v / 16, w - 1, k);
    }
  }

  /** The number that hexadecimal digits continue from v. */
  function Extend(v: nat, t: string): nat
    decreases t
  {
    if t == "" || HexValue(t[0]) < 0 then v else Extend(v * 16 + HexValue(t[0]), t[1..])
  }

  predicate AllHex(t: string) {
    forall k :: 0 <= k < |t| ==> HexValue(t[k]) >= 0
  }

  lemma {:induction false} ExtendSnoc(v: nat, t: string, c: char)
    requires AllHex(t) && HexValue(c) >= 0
    ensures Extend(v, t + [c]) == Extend(v, t) * 16 + HexValue(c)
    decreases t
  {
    if t == "" {
      assert Extend(v * 16 + HexValue(c), []) == v * 16 + HexValue(c);
      assert (t + [c])[1..] == [];
    } else {
      assert (t + [c])[1..] == t[1..] + [c];
      ExtendSnoc(v * 16 + HexValue(t[0]), t[1..], c);
    }
  }

  lemma {:induction false} HexTextDenotes(v: nat, w: nat)
    requires v < Pow16(w)
    ensures AllHex(HexText(v, w)) && Extend(0, HexText(v, w)) == v
  {
    if w > 0 {
      HexTextDenotes(v / 16, w - 1);
      ExtendSnoc(0, HexText(v / 16, w - 1), HexDigit(v % 16));
    }
  }

  // ---------------------------------------------------------------- the parser

  /** The loop of HexToNumber: c of x digits are in nu. It stops after x digits, behind
      the first character that is neither digit nor separator, or behind a separator that
      ends the string; it reads the terminator at most. */
  function HexLoop(s: string, pos: nat, x: nat, c: nat, nu: nat): (r: (nat, nat))
    requires pos <= |s| && c <= x && nu < Pow16(c)
    ensures pos <= r.1 <= |s| + 1 && r.0 < Pow16(x)
    decreases |s| + 1 - pos
  {
    PowersGrow(c, x);
    if c == x then (nu, pos)
    else
      var ch := CharAt(s, pos);
      if IsSeparator(ch) then (if pos + 1 >= |s| then (nu, pos + 1) else HexLoop(s, pos + 1, x, c, nu))
      else if HexValue(ch) < 0 then (nu, pos + 1)
      else HexLoop(s, pos + 1, x, c + 1, (if c > 0 then nu * 16 else nu) + HexValue(ch))
  }

  lemma {:induction false} PowersGrow(c: nat, x: nat)
    requires c <= x
    ensures Pow16(c) <= Pow16(x)
    decreases x
  {
    if c < x {
      PowersGrow(c, x - 1);
    }
  }

  /** HexToNumber for a type of x hexadecimal digits. */
  function HexToNumber(s: string, pos: nat, x: nat): (r: (nat, nat))
    requires pos <= |s| + 1
    ensures pos <= r.1 <= |s| + 1 && r.0 < Pow16(x)
  {
    PowersGrow(0, x);
    if pos >= |s| then (0, pos) else HexLoop(s, pos, x, 0, 0)
  }

  /** One number after the other. */
  function ParseFields(s: string, pos: nat, widths: seq<nat>): (values: seq<nat>)
    requires pos <= |s| + 1
    ensures |values| == |widths|
    ensures forall k :: 0 <= k < |widths| ==> values[k] < Pow16(widths[k])
    decreases |widths|
  {
    if widths == [] then []
    else
      var (v, next) := HexToNumber(s, pos, widths[0]);
      [v] + ParseFields(s, next, widths[1..])
  }

  /** The widths of the last n bytes of Data4. */
  ghost function Bytes(n: nat): (widths: seq<nat>)
    ensures |widths| == n
  {
    seq(n, i => 2)
  }

  lemma ParseFieldsByte(s: string, pos: nat, n: nat)
    requires pos <= |s| + 1 && n > 0
    ensures var (v, next) := HexToNumber(s, pos, 2);
            ParseFields(s, pos, Bytes(n)) == [v] + ParseFields(s, next, Bytes(n - 1))
  {
    hide HexToNumber, Pow16;
    assert Bytes(n)[1..] == Bytes(n - 1);
  }

  /** Numbers behind the end are zero. */
  lemma {:induction false} NothingToParse(s: string, pos: nat, widths: seq<nat>)
    requires |s| <= pos <= |s| + 1
    ensures forall k :: 0 <= k < |widths| ==> ParseFields(s, pos, widths)[k] == 0
    decreases |widths|
  {
    if widths != [] {
      NothingToParse(s, pos, widths[1..]);
    }
  }

  lemma BytesAreLast()
    ensures WIDTHS[3..] == Bytes(8)
  {
  }

  lemma ParseFieldsStep(s: string, pos: nat, k: nat)
    requires pos <= |s| + 1 && k < 11
    ensures var (v, next) := HexToNumber(s, pos, WIDTHS[k]);
            ParseFields(s, pos, WIDTHS[k..]) == [v] + ParseFields(s, next, WIDTHS[k + 1..])
  {
    hide HexToNumber, Pow16;
    assert WIDTHS[k..][1..] == WIDTHS[k + 1..];
  }

  lemma ParseFieldsHead(s: string)
    ensures var (v1, p1) := HexToNumber(s, 0, 8);
            var (v2, p2) := HexToNumber(s, p1, 4);
            var (v3, p3) := HexToNumber(s, p2, 4);
            ParseFields(s, 0, WIDTHS) == [v1, v2, v3] + ParseFields(s, p3, WIDTHS[3..])
  {
    hide HexToNumber, Pow16, ParseFields;
    var p1 := HexToNumber(s, 0, 8).1;
    var p2 := HexToNumber(s, p1, 4).1;
    ParseFieldsStep(s, 0, 0);
    ParseFieldsStep(s, p1, 1);
    ParseFieldsStep(s, p2, 2);
    assert WIDTHS[0..] == WIDTHS;
  }

  // ---------------------------------------------------------------- printing

  datatype Format = D | N | B | P

  /** What stands before each number, given what opens the text and what parts the groups. */
  function Shape(opening: string, dash: string): (r: seq<string>)
    ensures |r| == 11
  {
    [opening, dash, dash, dash, "", dash, "", "", "", "", ""]
  }

  function Opening(fmt: Format): string {
    match fmt
    case B => "{"
    case P => "("
    case _ => ""
  }

  function Separators(fmt: Format): (r: seq<string>)
    ensures |r| == 11 && forall k :: 0 <= k < 11 ==> AllSeparators(r[k])
  {
    Shape(Opening(fmt), if fmt == N then "" else "-")
  }

  function Closing(fmt: Format): string {
    match fmt
    case B => "}"
    case P => ")"
    case _ => ""
  }

  function FieldsText(separators: seq<string>, widths: seq<nat>, values: seq<nat>): string
    requires |separators| == |widths| == |values|
  {
    if widths == [] then ""
    else separators[0] + (HexText(values[0], widths[0]) + FieldsText(separators[1..], widths[1..], values[1..]))
  }

  /** The text of the numbers from the k-th on. */
  ghost function FieldsFrom(separators: seq<string>, values: seq<nat>, k: nat): string
    requires |separators| == |values| == 11 && k <= 11
  {
    FieldsText(separators[k..], WIDTHS[k..], values[k..])
  }

  lemma PrintsFields(separators: seq<string>, values: seq<nat>)
    requires |separators| == |values| == 11
    ensures "" + FieldsFrom(separators, values, 0) == FieldsText(separators, WIDTHS, values)
  {
    assert separators[0..] == separators && WIDTHS[0..] == WIDTHS && values[0..] == values;
  }

  lemma PrintedField(text: string, separators: seq<string>, values: seq<nat>, k: nat, whole: string)
    requires |separators| == |values| == 11 && k < 11
    requires text + FieldsFrom(separators, values, k) == whole
    ensures ((text + separators[k]) + HexText(values[k], WIDTHS[k])) + FieldsFrom(separators, values, k + 1) == whole
    ensures separators[k] == "" ==> text + separators[k] == text
  {
    hide HexText;
    var hex, rest := HexText(values[k], WIDTHS[k]), FieldsText(separators[k + 1..], WIDTHS[k + 1..], values[k + 1..]);
    assert separators[k..][1..] == separators[k + 1..] && WIDTHS[k..][1..] == WIDTHS[k + 1..];
    assert values[k..][1..] == values[k + 1..];
    assert FieldsText(separators[k..], WIDTHS[k..], values[k..]) == separators[k] + (hex + rest);
    Assoc(text, separators[k], hex + rest);
    Assoc(text + separators[k], hex, rest);
  }

  lemma PrintedFields(text: string, separators: seq<string>, values: seq<nat>, whole: string)
    requires |separators| == |values| == 11
    requires text + FieldsFrom(separators, values, 11) == whole
    ensures text == whole
  {
  }

  ghost predicate Fits(widths: seq<nat>, values: seq<nat>) {
    |widths| == |values| && forall k :: 0 <= k < |widths| ==> values[k] < Pow16(widths[k])
  }

  // ---------------------------------------------------------------- round trip

  lemma {:induction false} ReadsDigits(s: string, pos: nat, x: nat, c: nat, nu: nat, t: string)
    requires At(s, pos, t) && AllHex(t) && c + |t| == x && nu < Pow16(c)
    ensures HexLoop(s, pos, x, c, nu) == (Extend(nu, t), pos + |t|)
    decreases t
  {
    if t != "" {
      assert s[pos + 0] == t[0];
      assert At(s, pos + 1, t[1..]) by {
        forall k | 0 <= k < |t| - 1 ensures s[pos + 1 + k] == t[1..][k] {
          assert s[pos + (k + 1)] == t[k + 1];
        }
      }
      ReadsDigits(s, pos + 1, x, c + 1, nu * 16 + HexValue(t[0]), t[1..]);
    }
  }

  lemma {:induction false} SkipsSeparators(s: string, pos: nat, x: nat, sep: string)
    requires At(s, pos, sep) && AllSeparators(sep) && pos + |sep| < |s| && x > 0
    ensures HexLoop(s, pos, x, 0, 0) == HexLoop(s, pos + |sep|, x, 0, 0)
    decreases sep
  {
    if sep != "" {
      assert s[pos + 0] == sep[0];
      forall k | 0 <= k < |sep| - 1 ensures s[pos + 1 + k] == sep[1..][k] {
        assert s[pos + (k + 1)] == sep[k + 1];
      }
      SkipsSeparators(s, pos + 1, x, sep[1..]);
    }
  }

  lemma ReadsNumber(s: string, pos: nat, sep: string, v: nat, w: nat)
    requires At(s, pos, sep) && AllSeparators(sep) && At(s, pos + |sep|, HexText(v, w))
    requires w > 0 && v < Pow16(w)
    ensures pos < |s| && HexToNumber(s, pos, w) == (v, pos + |sep| + w)
  {
    hide HexLoop;
    HexTextDenotes(v, w);
    SkipsSeparators(s, pos, w, sep);
    ReadsDigits(s, pos + |sep|, w, 0, 0, HexText(v, w));
  }

  /** The parser reads printed numbers back, whatever separators stand between them. */
  lemma {:induction false} ParsesFields(s: string, pos: nat, separators: seq<string>, widths: seq<nat>,
          values: seq<nat>)
    requires |separators| == |widths| && Fits(widths, values)
    requires forall k :: 0 <= k < |widths| ==> widths[k] > 0 && AllSeparators(separators[k])
    requires At(s, pos, FieldsText(separators, widths, values))
    ensures ParseFields(s, pos, widths) == values
    decreases |widths|
  {
    if widths != [] {
      var sep, v, w := separators[0], values[0], widths[0];
      var rest := FieldsText(separators[1..], widths[1..], values[1..]);
      AtConcat(s, pos, sep, HexText(v, w) + rest);
      AtConcat(s, pos + |sep|, HexText(v, w), rest);
      ReadsNumber(s, pos, sep, v, w);
      ParsesFields(s, pos + |sep| + w, separators[1..], widths[1..], values[1..]);
      assert values == [v] + values[1..];
    }
  }

  class Guid {
    var data1: nat
    var data2: nat
    var data3: nat
    const data4: array<nat>

    ghost predicate Valid()
      reads this, data4
    {
      data4.Length == 8 && Fits(WIDTHS, Values())
    }

    ghost function Values(): seq<nat>
      reads this, data4
    {
      [data1, data2, data3] + data4[..]
    }

    constructor ()
      ensures Valid() && fresh(data4) && forall k :: 0 <= k < 11 ==> Values()[k] == 0
    {
      data1, data2, data3 := 0, 0, 0;
      data4 := new nat[8](_ => 0);
      new;
      assert Pow16(8) > 0 && Pow16(4) > 0 && Pow16(2) > 0;
    }

    method Clear()
      requires data4.Length == 8
      modifies this, data4
      ensures forall k :: 0 <= k < 11 ==> Values()[k] == 0
    {
      data1, data2, data3 := 0, 0, 0;
      forall i | 0 <= i < 8 {
        data4[i] := 0;
      }
    }

    /** The snprintf of one format: the eleven numbers in hexadecimal, between literals. */
    method Print(opening: string, dash: string, closing: string) returns (text: string)
      requires Valid()
      ensures text == FieldsText(Shape(opening, dash), WIDTHS, Values()) + closing
      ensures text ==
              opening + HexText(data1, 8) + dash + HexText(data2, 4) + dash + HexText(data3, 4)
              + dash + HexText(data4[0], 2) + HexText(data4[1], 2)
              + dash + HexText(data4[2], 2) + HexText(data4[3], 2) + HexText(data4[4], 2)
              + HexText(data4[5], 2) + HexText(data4[6], 2) + HexText(data4[7], 2) + closing
    {
      hide FieldsFrom, FieldsText, HexText, Fits, Pow16;
      ghost var separators, values := Shape(opening, dash), Values();
      ghost var whole := FieldsText(separators, WIDTHS, values);
      PrintsFields(separators, values);
      text := "";
      PrintedField(text, separators, values, 0, whole);
      text := opening + HexText(data1, 8);
      PrintedField(text, separators, values, 1, whole);
      text := text + dash + HexText(data2, 4);
      PrintedField(text, separators, values, 2, whole);
      text := text + dash + HexText(data3, 4);
      text := PrintData4(text, opening, dash, whole);
      text := text + closing;
    }

    /** The eight bytes of Data4, behind the text so far. */
    method PrintData4(before: string, ghost opening: string, dash: string, ghost whole: string) returns (text: string)
      requires Valid() && before + FieldsFrom(Shape(opening, dash), Values(), 3) == whole
      ensures text == whole
      ensures text ==
              before + dash + HexText(data4[0], 2) + HexText(data4[1], 2)
              + dash + HexText(data4[2], 2) + HexText(data4[3], 2) + HexText(data4[4], 2)
              + HexText(data4[5], 2) + HexText(data4[6], 2) + HexText(data4[7], 2)
    {
      hide FieldsFrom, FieldsText, HexText, Fits, Pow16;
      ghost var separators, values := Shape(opening, dash), Values();
      text := before;
      PrintedField(text, separators, values, 3, whole);
      text := text + dash + HexText(data4[0], 2);
      PrintedField(text, separators, values, 4, whole);
      text := text + HexText(data4[1], 2);
      PrintedField(text, separators, values, 5, whole);
      text := text + dash + HexText(data4[2], 2);
      PrintedField(text, separators, values, 6, whole);
      text := text + HexText(data4[3], 2);
      PrintedField(text, separators, values, 7, whole);
      text := text + HexText(data4[4], 2);
      PrintedField(text, separators, values, 8, whole);
      text := text + HexText(data4[5], 2);
      PrintedField(text, separators, values, 9, whole);
      text := text + HexText(data4[6], 2);
      PrintedField(text, separators, values, 10, whole);
      text := text + HexText(data4[7], 2);
      PrintedFields(text, separators, values, whole);
    }

    method ToString(fmt: Format) returns (text: string)
      requires Valid()
      ensures text == FieldsText(Separators(fmt), WIDTHS, Values()) + Closing(fmt)
      ensures ParseFields(text, 0, WIDTHS) == Values()
      ensures var opening := if fmt == B then "{" else if fmt == P then "(" else "";
              var closing := if fmt == B then "}" else if fmt == P then ")" else "";
              var dash := if fmt == N then "" else "-";
              text ==
              opening + HexText(data1, 8) + dash + HexText(data2, 4) + dash + HexText(data3, 4)
              + dash + HexText(data4[0], 2) + HexText(data4[1], 2)
              + dash + HexText(data4[2], 2) + HexText(data4[3], 2) + HexText(data4[4], 2)
              + HexText(data4[5], 2) + HexText(data4[6], 2) + HexText(data4[7], 2) + closing
    {
      hide FieldsText, ParseFields, Fits;
      PrintedGuidParses(Values(), fmt);
      if fmt == N {
        text := Print("", "", "");
      } else if fmt == B {
        text := Print("{", "-", "}");
      } else if fmt == P {
        text := Print("(", "-", ")");
      } else {
        text := Print("", "-", "");
      }
    }

    method ParseExact(s: string)
      requires data4.Length == 8
      modifies this, data4
      ensures Valid() && Values() == ParseFields(s, 0, WIDTHS)
      ensures var numbers := ParseFields(s, 0, WIDTHS);
              && data1 == numbers[0] && data2 == numbers[1] && data3 == numbers[2]
              && forall k :: 0 <= k < 8 ==> data4[k] == numbers[3 + k]
    {
      hide HexToNumber, Pow16, ParseFields;
      Clear();
      if s == "" {
        NothingToParse(s, 0, WIDTHS);
        assert Values() == ParseFields(s, 0, WIDTHS);
        return;
      }
      var pos: nat;
      data1, pos := HexNumber(s, 0, 8);
      data2, pos := HexNumber(s, pos, 4);
      data3, pos := HexNumber(s, pos, 4);
      ParseData4(s, pos);
      ParseFieldsHead(s);
    }

    /** The loop of ParseExact over the bytes of Data4. */
    method ParseData4(s: string, from: nat)
      requires data4.Length == 8 && from <= |s| + 1
      modifies data4
      ensures data4[..] == ParseFields(s, from, WIDTHS[3..])
    {
      hide *;
      var pos: nat := from;
      for i: nat := 0 to 8
        invariant pos <= |s| + 1
        invariant data4[..i] + ParseFields(s, pos, Bytes(8 - i)) == ParseFields(s, from, Bytes(8))
      {
        ghost var done := data4[..i];
        ParseFieldsByte(s, pos, 8 - i);
        var v: nat, next: nat := HexNumber(s, pos, 2);
        Assoc(done, [v], ParseFields(s, next, Bytes(7 - i)));
        data4[i], pos := v, next;
        assert data4[..i + 1] == done + [v];
      }
      BytesAreLast();
      assert data4[..8] == data4[..];
      assert |ParseFields(s, pos, Bytes(0))| == 0;
    }

    /** HexToNumber: the loop over the characters. */
    static method HexNumber(s: string, from: nat, x: nat) returns (nu: nat, pos: nat)
      requires from <= |s| + 1
      ensures (nu, pos) == HexToNumber(s, from, x)
    {
      nu, pos := 0, from;
      if pos >= |s| {
        return;
      }
      var c := 0;
      while c < x
        invariant c <= x && pos <= |s| && nu < Pow16(c)
        invariant HexLoop(s, pos, x, c, nu) == HexToNumber(s, from, x)
        decreases |s| + 1 - pos
      {
        var ch := CharAt(s, pos);
        pos := pos + 1;
        if IsSeparator(ch) {
          if pos >= |s| {
            break;
          }
          continue;
        }
        if HexValue(ch) < 0 {
          break;
        }
        nu := (if c > 0 then nu * 16 else nu) + HexValue(ch);
        c := c + 1;
      }
    }
  }

  /** ParseExact(ToString(g, fmt)) is g, for every GUID and every format. */
  lemma PrintedGuidParses(values: seq<nat>, fmt: Format)
    requires Fits(WIDTHS, values)
    ensures ParseFields(FieldsText(Separators(fmt), WIDTHS, values) + Closing(fmt), 0, WIDTHS) == values
  {
    var text := FieldsText(Separators(fmt), WIDTHS, values);
    assert At(text + Closing(fmt), 0, text);
    ParsesFields(text + Closing(fmt), 0, Separators(fmt), WIDTHS, values);
  }

  method RoundTrip(g: Guid, fmt: Format) returns (parsed: Guid)
    requires g.Valid()
    ensures parsed.Valid() && parsed.Values() == g.Values()
  {
    hide ParseFields, HexText, FieldsText, Fits;
    var text := g.ToString(fmt);
    parsed := new Guid();
    parsed.ParseExact(text);
    PrintedGuidParses(g.Values(), fmt);
  }
}

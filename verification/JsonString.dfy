/** String literals: valueToQuotedString in json/src/json_writer.cpp against
    readString, decodeString and the unicode escapes in json/src/json_reader.cpp. */
module JsonString {
  import opened Text
  import Utf8

  const BACKSPACE: char := 8 as char
  const FORM_FEED: char := 12 as char

  // ---------------------------------------------------------------- printing

  predicate IsControl(c: char) {
    0 < c as int <= 0x1F
  }

  function HexDigit(d: int): char
    requires 0 <= d < 16
  {
    if d < 10 then ('0' as int + d) as char else ('A' as int + d - 10) as char
  }

  function Escape(c: char): string {
    if c == '\"' then "\\\""
    else if c == '\\' then "\\\\"
    else if c == BACKSPACE then "\\b"
    else if c == FORM_FEED then "\\f"
    else if c == '\n' then "\\n"
    else if c == '\r' then "\\r"
    else if c == '\t' then "\\t"
    else if IsControl(c) then ['\\', 'u', '0', '0', HexDigit(c as int / 16), HexDigit(c as int % 16)]
    else [c]
  }

  function EscapeAll(s: string): string {
    if s == "" then "" else Escape(s[0]) + EscapeAll(s[1..])
  }

  function Quoted(s: string): (r: string)
    ensures |r| >= 2
  {
    "\"" + (EscapeAll(s) + "\"")
  }

  /** strpbrk(value, ...) != NULL || containsControlCharacter(value) */
  predicate NeedsEscape(s: string) {
    exists k :: 0 <= k < |s| && (s[k] == '\"' || s[k] == '\\' || IsControl(s[k]))
  }

  lemma {:induction false} PlainText(s: string)
    requires !NeedsEscape(s)
    ensures EscapeAll(s) == s
  {
    if s != "" {
      PlainText(s[1..]);
      assert Escape(s[0]) == [s[0]];
    }
  }

  /** valueToQuotedString: copies a string without specials, else escapes it. */
  method ValueToQuotedString(value: string) returns (result: string)
    ensures result == Quoted(value)
  {
    if !NeedsEscape(value) {
      PlainText(value);
      return "\"" + (value + "\"");
    }
    result := "\"";
    for k := 0 to |value|
      invariant result + EscapeAll(value[k..]) == "\"" + EscapeAll(value)
    {
      assert value[k..][1..] == value[k + 1..];
      Assoc(result, Escape(value[k]), EscapeAll(value[k + 1..]));
      result := result + Escape(value[k]);
    }
    Assoc("\"", EscapeAll(value), "\"");
    result := result + "\"";
  }

  // ---------------------------------------------------------------- scanning

  /** readString after the opening quote: success and the position reached. */
  function StringEnd(doc: string, i: nat): (r: (bool, nat))
    requires i <= |doc|
    ensures i <= r.1 <= |doc|
    ensures r.0 ==> r.1 > i && doc[r.1 - 1] == '\"'
    decreases |doc| - i
  {
    if i == |doc| then (false, i)
    else if doc[i] == '\\' then (if i + 1 < |doc| then StringEnd(doc, i + 2) else (false, i + 1))
    else if doc[i] == '\"' then (true, i + 1)
    else StringEnd(doc, i + 1)
  }

  // ---------------------------------------------------------------- decoding

  datatype Decoded = Text(text: string) | BadText(message: string, extra: nat)

  datatype Unit = Unit(code: int, next: nat) | BadUnit(message: string, extra: nat)

  const FOUR_DIGITS := "Bad unicode escape sequence in string: four digits expected."
  const HEX_DIGITS := "Bad unicode escape sequence in string: hexadecimal digit expected."
  const SIX_MORE := "additional six characters expected to parse unicode surrogate pair."
  const SECOND_HALF := "expecting another \\u token to begin the second half of a unicode surrogate pair"
  const EMPTY_ESCAPE := "Empty escape sequence in string"
  const BAD_ESCAPE := "Bad escape sequence in string"

  function HexUnit(doc: string, cur: nat, left: nat, code: int): (u: Unit)
    requires cur + left <= |doc| && code >= 0
    ensures u.Unit? ==> u.next == cur + left && u.code >= 0
    decreases left
  {
    if left == 0 then Unit(code, cur)
    else if HexValue(doc[cur]) < 0 then BadUnit(HEX_DIGITS, cur + 1)
    else HexUnit(doc, cur + 1, left - 1, code * 16 + HexValue(doc[cur]))
  }

  /** decodeUnicodeEscapeSequence */
  function EscapeUnit(doc: string, cur: nat, end: nat): (u: Unit)
    requires cur <= end <= |doc|
    ensures u.Unit? ==> u.next == cur + 4 <= end && u.code >= 0
  {
    if end - cur < 4 then BadUnit(FOUR_DIGITS, cur) else HexUnit(doc, cur, 4, 0)
  }

  /** decodeUnicodeCodePoint: a unit, or a high surrogate and whatever unit follows it. */
  function CodePoint(doc: string, cur: nat, end: nat): (u: Unit)
    requires cur <= end <= |doc|
    ensures u.Unit? ==> cur < u.next <= end && u.code >= 0
  {
    var first := EscapeUnit(doc, cur, end);
    if first.BadUnit? || !(0xD800 <= first.code <= 0xDBFF) then first
    else
      var n := first.next;
      if end - n < 6 then BadUnit(SIX_MORE, n)
      else if doc[n] != '\\' then BadUnit(SECOND_HALF, n + 1)
      else if doc[n + 1] != 'u' then BadUnit(SECOND_HALF, n + 2)
      else
        var second := EscapeUnit(doc, n + 2, end);
        if second.BadUnit? then second
        else Unit(0x10000 + first.code % 0x400 * 0x400 + second.code % 0x400, second.next)
  }

  /** The character of a two character escape, if it is one. */
  function SimpleEscape(c: char): string {
    if c == '\"' || c == '/' || c == '\\' then [c]
    else if c == 'b' then [BACKSPACE]
    else if c == 'f' then [FORM_FEED]
    else if c == 'n' then "\n"
    else if c == 'r' then "\r"
    else if c == 't' then "\t"
    else ""
  }

  /** The loop of decodeString over doc[cur..end]. */
  function DecodeBody(doc: string, cur: nat, end: nat, decoded: string): Decoded
    requires cur <= end <= |doc|
    decreases end - cur
  {
    if cur == end || doc[cur] == '\"' then Text(decoded)
    else if doc[cur] != '\\' then DecodeBody(doc, cur + 1, end, decoded + [doc[cur]])
    else if cur + 1 == end then BadText(EMPTY_ESCAPE, cur + 1)
    else if SimpleEscape(doc[cur + 1]) != "" then DecodeBody(doc, cur + 2, end, decoded + SimpleEscape(doc[cur + 1]))
    else if doc[cur + 1] != 'u' then BadText(BAD_ESCAPE, cur + 2)
    else
      match CodePoint(doc, cur + 2, end)
      case BadUnit(message, extra) => BadText(message, extra)
      case Unit(code, next) => DecodeBody(doc, next, end, decoded + Utf8.CodePointToUtf8(code))
  }

  // ---------------------------------------------------------------- round trip

  /** The characters of an escape, read at its place in a document. */
  lemma EscapeShape(doc: string, i: nat, c: char)
    requires At(doc, i, Escape(c))
    ensures var n := |Escape(c)|;
            || (n == 1 && doc[i] == c && c != '\"' && c != '\\')
            || (n == 2 && doc[i] == '\\' && SimpleEscape(doc[i + 1]) == [c])
            || (n == 6 && doc[i] == '\\' && doc[i + 1] == 'u'
                && c as int < 32 && SpellsUnit(doc[i + 2..i + 6], c as int))
  {
    var e := Escape(c);
    AtIndex(doc, i, e, 0);
    if |e| > 1 {
      AtIndex(doc, i, e, 1);
    }
    if |e| == 6 {
      assert doc[i + 2..i + 6] == doc[i..i + 6][2..];
      ControlUnit(c);
    }
  }

  lemma ControlUnit(c: char)
    requires |Escape(c)| == 6
    ensures c as int < 32 && SpellsUnit(Escape(c)[2..], c as int)
  {
    var h := Escape(c)[2..];
    assert h[0] == h[1] == '0';
    assert HexValue(h[2]) == c as int / 16 && HexValue(h[3]) == c as int % 16;
  }

  lemma SkipsEscape(doc: string, i: nat, c: char)
    requires At(doc, i, Escape(c))
    ensures StringEnd(doc, i) == StringEnd(doc, i + |Escape(c)|)
  {
    EscapeShape(doc, i, c);
    if |Escape(c)| == 6 {
      var h := doc[i + 2..i + 6];
      assert StringEnd(doc, i) == StringEnd(doc, i + 2);
      SkipsPlain(doc, i + 2, 4);
    }
  }

  lemma {:induction false} SkipsPlain(doc: string, i: nat, n: nat)
    requires i + n <= |doc| && forall k :: i <= k < i + n ==> doc[k] != '\\' && doc[k] != '\"'
    ensures StringEnd(doc, i) == StringEnd(doc, i + n)
    decreases n
  {
    if n > 0 {
      SkipsPlain(doc, i + 1, n - 1);
    }
  }

  lemma EscapeAllStep(doc: string, i: nat, s: string)
    requires s != "" && At(doc, i, EscapeAll(s))
    ensures |EscapeAll(s)| == |Escape(s[0])| + |EscapeAll(s[1..])|
    ensures At(doc, i, Escape(s[0])) && At(doc, i + |Escape(s[0])|, EscapeAll(s[1..]))
  {
    AtConcat(doc, i, Escape(s[0]), EscapeAll(s[1..]));
  }

  /** The reader stops at exactly the quote that the writer put after the text. */
  lemma {:induction false} StopsAtClosingQuote(doc: string, i: nat, s: string)
    requires At(doc, i, EscapeAll(s))
    requires var j := i + |EscapeAll(s)|; j < |doc| && doc[j] == '\"'
    ensures StringEnd(doc, i) == (true, i + |EscapeAll(s)| + 1)
    decreases s
  {
    if s != "" {
      EscapeAllStep(doc, i, s);
      SkipsEscape(doc, i, s[0]);
      StopsAtClosingQuote(doc, i + |Escape(s[0])|, s[1..]);
    }
  }

  /** Four hexadecimal digits, of either case, spell a code unit. */
  predicate SpellsUnit(h: string, code: int) {
    && |h| == 4
    && (forall k :: 0 <= k < 4 ==> HexValue(h[k]) >= 0)
    && code == ((HexValue(h[0]) * 16 + HexValue(h[1])) * 16 + HexValue(h[2])) * 16 + HexValue(h[3])
  }

  lemma ReadsUnit(doc: string, cur: nat, end: nat, h: string, code: int)
    requires SpellsUnit(h, code) && At(doc, cur, h) && cur + 4 <= end <= |doc|
    ensures EscapeUnit(doc, cur, end) == Unit(code, cur + 4)
  {
    forall k | 0 <= k < 4 ensures doc[cur + k] == h[k] {
      AtIndex(doc, cur, h, k);
    }
    var a := HexValue(h[0]);
    var b := a * 16 + HexValue(h[1]);
    var c := b * 16 + HexValue(h[2]);
    assert HexUnit(doc, cur, 4, 0) == HexUnit(doc, cur + 1, 3, a);
    assert HexUnit(doc, cur + 1, 3, a) == HexUnit(doc, cur + 2, 2, b);
    assert HexUnit(doc, cur + 2, 2, b) == HexUnit(doc, cur + 3, 1, c);
    assert HexUnit(doc, cur + 3, 1, c) == HexUnit(doc, cur + 4, 0, code);
  }

  lemma DecodesEscape(doc: string, cur: nat, end: nat, c: char, decoded: string)
    requires At(doc, cur, Escape(c)) && cur + |Escape(c)| <= end <= |doc|
    ensures DecodeBody(doc, cur, end, decoded) == DecodeBody(doc, cur + |Escape(c)|, end, decoded + [c])
  {
    EscapeShape(doc, cur, c);
    if |Escape(c)| == 6 {
      var h := doc[cur + 2..cur + 6];
      assert At(doc, cur + 2, h);
      ReadsUnit(doc, cur + 2, end, h, c as int);
      assert Utf8.CodePointToUtf8(c as int) == [c];
    }
  }

  lemma TakeOne(decoded: string, s: string)
    requires s != ""
    ensures decoded + [s[0]] + s[1..] == decoded + s
  {
  }

  /** decodeString of an escaped string gives the string back. */
  lemma {:induction false} DecodesEscaped(doc: string, cur: nat, s: string, decoded: string)
    requires At(doc, cur, EscapeAll(s))
    ensures DecodeBody(doc, cur, cur + |EscapeAll(s)|, decoded) == Text(decoded + s)
    decreases s
  {
    if s == "" {
      assert decoded + s == decoded;
    } else {
      EscapeAllStep(doc, cur, s);
      DecodesEscape(doc, cur, cur + |EscapeAll(s)|, s[0], decoded);
      DecodesEscaped(doc, cur + |Escape(s[0])|, s[1..], decoded + [s[0]]);
      TakeOne(decoded, s);
    }
  }

  /** A quoted string anywhere in a document is one token, and its text decodes to
      the string that was quoted. */
  lemma QuotedRoundTrip(doc: string, i: nat, s: string)
    requires At(doc, i, Quoted(s))
    ensures var end := i + |Quoted(s)|;
            && doc[i] == '\"'
            && StringEnd(doc, i + 1) == (true, end)
            && DecodeBody(doc, i + 1, end - 1, "") == Text(s)
  {
    hide StringEnd, DecodeBody, EscapeAll;
    AtConcat(doc, i, "\"", EscapeAll(s) + "\"");
    AtConcat(doc, i + 1, EscapeAll(s), "\"");
    AtIndex(doc, i, "\"", 0);
    AtIndex(doc, i + 1 + |EscapeAll(s)|, "\"", 0);
    StopsAtClosingQuote(doc, i + 1, s);
    DecodesEscaped(doc, i + 1, s, "");
    assert "" + s == s;
  }

  // ---------------------------------------------------------------- unicode escapes

  /** `escape` writes cp as one escape, or as a surrogate pair of escapes, with hex
      digits of either case (RFC 8259 section 7). */
  ghost predicate EscapesScalar(escape: string, cp: int) {
    Utf8.IsScalar(cp) &&
    if cp <= 0xFFFF then
      |escape| == 6 && escape[..2] == "\\u" && SpellsUnit(escape[2..], cp)
    else
      |escape| == 12 && escape[..2] == "\\u" && escape[6..8] == "\\u"
      && SpellsUnit(escape[2..6], 0xD800 + (cp - 0x10000) / 0x400)
      && SpellsUnit(escape[8..], 0xDC00 + (cp - 0x10000) % 0x400)
  }

  /** The decoder turns an escaped scalar value into its UTF-8 encoding and goes on
      with the text behind the escape. */
  lemma DecodesScalar(doc: string, cur: nat, end: nat, decoded: string, escape: string, cp: int)
    requires EscapesScalar(escape, cp) && At(doc, cur, escape)
    requires cur + |escape| <= end <= |doc|
    ensures DecodeBody(doc, cur, end, decoded) ==
            DecodeBody(doc, cur + |escape|, end, decoded + Utf8.CodePointToUtf8(cp))
    ensures Utf8.WellFormed(Utf8.CodePointToUtf8(cp)) && Utf8.Decode(Utf8.CodePointToUtf8(cp)) == cp
  {
    hide CodePoint, SpellsUnit, Utf8.CodePointToUtf8, Utf8.WellFormed, Utf8.Decode;
    Utf8.EncodesWellFormed(cp);
    ReadsScalar(doc, cur, end, escape, cp);
    AtConcat(doc, cur, escape[..2], escape[2..]);
    assert escape == escape[..2] + escape[2..];
    AtIndex(doc, cur, "\\u", 0);
    AtIndex(doc, cur, "\\u", 1);
  }

  lemma ReadsScalar(doc: string, cur: nat, end: nat, escape: string, cp: int)
    requires EscapesScalar(escape, cp) && At(doc, cur, escape)
    requires cur + |escape| <= end <= |doc|
    ensures CodePoint(doc, cur + 2, end) == Unit(cp, cur + |escape|)
  {
    hide HexUnit, HexValue, EscapeUnit, At, SpellsUnit;
    assert escape == escape[..2] + escape[2..];
    AtConcat(doc, cur, escape[..2], escape[2..]);
    if cp <= 0xFFFF {
      ReadsUnit(doc, cur + 2, end, escape[2..], cp);
    } else {
      var high, low := 0xD800 + (cp - 0x10000) / 0x400, 0xDC00 + (cp - 0x10000) % 0x400;
      assert escape[2..] == escape[2..6] + (escape[6..8] + escape[8..]);
      AtConcat(doc, cur + 2, escape[2..6], escape[6..8] + escape[8..]);
      AtConcat(doc, cur + 6, escape[6..8], escape[8..]);
      AtIndex(doc, cur + 6, "\\u", 0);
      AtIndex(doc, cur + 6, "\\u", 1);
      ReadsUnit(doc, cur + 2, end, escape[2..6], high);
      ReadsUnit(doc, cur + 8, end, escape[8..], low);
      assert high % 0x400 * 0x400 + low % 0x400 == cp - 0x10000;
    }
  }
}

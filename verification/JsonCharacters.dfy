/** The characters that the reader and the writers of json/src go by: white space, comments, words,
    escapes and UTF-8, each by its code. */
module JsonCharacters {
  import opened JsonValue
  import opened JsonScan
  import opened JsonParse
  import opened Text
  import JsonNumber
  import JsonString
  import Utf8

  // ---------------------------------------------------------------- white space and comments

  /** Space, tab, carriage return and line feed are white space, and nothing else. */
  lemma SpaceExactly(c: char)
    ensures IsSpace(c) <==> c as int == 32 || c as int == 9 || c as int == 13 || c as int == 10
  {
  }

  /** White space before a token does not matter. */
  lemma {:induction false} SpacesArePassed(doc: string, i: nat, j: nat)
    requires i <= j <= |doc| && forall k :: i <= k < j ==> doc[k] in " \t\r\n"
    ensures ReadToken(doc, i) == ReadToken(doc, j)
    decreases j - i
  {
    hide TokenAt;
    if i < j {
      SpacesArePassed(doc, i + 1, j);
    }
  }

  /** A comment from two slashes ends behind the next line feed or carriage return, or with the
      document. */
  lemma LineComment(doc: string, i: nat, j: nat)
    requires i + 2 <= j <= |doc| && doc[i] == '/' && doc[i + 1] == '/'
    requires forall k :: i + 2 <= k < j ==> doc[k] != '\n' && doc[k] != '\r'
    requires j == |doc| || doc[j] == '\n' || doc[j] == '\r'
    ensures TokenAt(doc, i) == Token(Comment, i, if j == |doc| then j else j + 1)
  {
    hide JsonString.StringEnd, BlockCommentEnd, SkipNumber;
    LineEnds(doc, i + 2, j);
  }

  lemma {:induction false} LineEnds(doc: string, i: nat, j: nat)
    requires i <= j <= |doc| && forall k :: i <= k < j ==> doc[k] != '\n' && doc[k] != '\r'
    requires j == |doc| || doc[j] == '\n' || doc[j] == '\r'
    ensures LineCommentEnd(doc, i) == if j == |doc| then j else j + 1
    decreases j - i
  {
    if i < j {
      LineEnds(doc, i + 1, j);
    }
  }

  /** A comment from a slash and a star ends behind the next star and slash; without them there is no
      token. */
  lemma BlockComment(doc: string, i: nat, j: nat)
    requires i + 2 <= j <= |doc| && doc[i] == '/' && doc[i + 1] == '*'
    requires forall k :: i + 2 <= k < j ==> !(doc[k] == '*' && k + 1 < |doc| && doc[k + 1] == '/')
    requires j < |doc| ==> j + 1 < |doc| && doc[j] == '*' && doc[j + 1] == '/'
    ensures TokenAt(doc, i) == if j < |doc| then Token(Comment, i, j + 2) else Token(ErrorToken, i, j)
  {
    hide JsonString.StringEnd, LineCommentEnd, SkipNumber;
    BlockEnds(doc, i + 2, j);
  }

  lemma {:induction false} BlockEnds(doc: string, i: nat, j: nat)
    requires i <= j <= |doc|
    requires forall k :: i <= k < j ==> !(doc[k] == '*' && k + 1 < |doc| && doc[k + 1] == '/')
    requires j < |doc| ==> j + 1 < |doc| && doc[j] == '*' && doc[j + 1] == '/'
    ensures BlockCommentEnd(doc, i) == if j < |doc| then (true, j + 2) else (false, j)
    decreases j - i
  {
    if i < j {
      BlockEnds(doc, i + 1, j);
    }
  }

  /** A slash before anything else is an error that takes the character behind it in. */
  lemma NoComment(doc: string, i: nat)
    requires i < |doc| && doc[i] == '/' && (i + 1 < |doc| ==> doc[i + 1] != '/' && doc[i + 1] != '*')
    ensures TokenAt(doc, i) == Token(ErrorToken, i, if i + 1 < |doc| then i + 2 else i + 1)
  {
    hide JsonString.StringEnd, BlockCommentEnd, LineCommentEnd, SkipNumber;
  }

  /** A string without a closing quote is an error up to the end of the document. */
  lemma OpenString(doc: string, i: nat)
    requires i < |doc| && doc[i] == '\"' && forall k :: i < k < |doc| ==> doc[k] != '\"'
    ensures TokenAt(doc, i) == Token(ErrorToken, i, |doc|)
  {
    hide JsonString.StringEnd, CommentEnd, SkipNumber;
    NoQuote(doc, i + 1);
  }

  lemma {:induction false} NoQuote(doc: string, i: nat)
    requires i <= |doc| && forall k :: i <= k < |doc| ==> doc[k] != '\"'
    ensures JsonString.StringEnd(doc, i) == (false, |doc|)
    decreases |doc| - i
  {
    if i + 1 < |doc| && doc[i] == '\\' {
      NoQuote(doc, i + 2);
    } else if i < |doc| && doc[i] != '\\' {
      NoQuote(doc, i + 1);
    }
  }

  /** A terminator inside the document ends the stream; a character that starts no token is an error. */
  lemma OtherTokens(doc: string, i: nat)
    requires i < |doc|
    ensures doc[i] as int == 0 ==> TokenAt(doc, i) == Token(EndOfStream, i, i + 1)
    ensures doc[i] as int != 0 && doc[i] !in "{}[]\"/-0123456789tfn,:" ==>
              TokenAt(doc, i) == Token(ErrorToken, i, i + 1)
  {
    hide JsonString.StringEnd, CommentEnd, SkipNumber, MatchEnd;
    var digits := "{}[]\"/-0123456789tfn,:";
    if JsonNumber.IsDigit(doc[i]) {
      assert digits[7 + (doc[i] as int - 48)] == doc[i];
    }
    assert digits[0] == '{' && digits[1] == '}' && digits[2] == '[' && digits[3] == ']' && digits[4] == '\"';
    assert digits[5] == '/' && digits[6] == '-' && digits[17] == 't' && digits[18] == 'f' && digits[19] == 'n';
    assert digits[20] == ',' && digits[21] == ':';
  }

  /** Where a value is expected a comment is passed if comments are allowed, and an error if not. */
  lemma CommentBeforeValue(src: Source, i: nat, node: Value, errors: Errors)
    requires i <= |src.doc| && ReadToken(src.doc, i).kind == Comment
    ensures var t := ReadToken(src.doc, i);
            if src.allowComments then ReadValue(src, i, node, errors) == ReadValue(src, t.end, node, errors)
            else ReadValue(src, i, node, errors) ==
                 Outcome(false, t.end, node,
                   errors + [ErrorInfo(t, "Syntax error: value, object or array expected.", -1)])
  {
    hide ReadToken, ReadMembers, ReadArray, NumberOutcome, StringOutcome;
  }

  /** The words of the language. */
  lemma WordTokens(doc: string, i: nat)
    ensures At(doc, i, "true") ==> TokenAt(doc, i) == Token(TrueToken, i, i + 4)
    ensures At(doc, i, "false") ==> TokenAt(doc, i) == Token(FalseToken, i, i + 5)
    ensures At(doc, i, "null") ==> TokenAt(doc, i) == Token(NullToken, i, i + 4)
  {
    hide At, JsonString.StringEnd, CommentEnd, SkipNumber;
    WordEnds(doc, i, 't', "rue");
    WordEnds(doc, i, 'f', "alse");
    WordEnds(doc, i, 'n', "ull");
    assert ['t'] + "rue" == "true" && ['f'] + "alse" == "false" && ['n'] + "ull" == "null";
  }

  lemma WordEnds(doc: string, i: nat, first: char, rest: string)
    ensures At(doc, i, [first] + rest) ==> i < |doc| && doc[i] == first && At(doc, i + 1, rest)
  {
    AtConcat(doc, i, [first], rest);
    if At(doc, i, [first]) {
      AtIndex(doc, i, [first], 0);
    }
  }

  // ---------------------------------------------------------------- escapes

  /** What decodeString makes of a backslash and the character behind it. */
  lemma EscapeMeans(doc: string, i: nat, end: nat, decoded: string)
    requires i + 1 < end <= |doc| && doc[i] == '\\'
    ensures doc[i + 1] in "\"\\/bfnrt" ==>
              var code := match doc[i + 1]
                case '\"' => 34 case '\\' => 92 case '/' => 47 case 'b' => 8
                case 'f' => 12 case 'n' => 10 case 'r' => 13 case _ => 9;
              JsonString.DecodeBody(doc, i, end, decoded) ==
              JsonString.DecodeBody(doc, i + 2, end, decoded + [code as char])
    ensures doc[i + 1] !in "\"\\/bfnrtu" ==>
              JsonString.DecodeBody(doc, i, end, decoded) ==
              JsonString.BadText("Bad escape sequence in string", i + 2)
  {
    hide JsonString.CodePoint;
  }

  /** Four hexadecimal digits. */
  predicate FourHex(doc: string, i: nat)
    requires i + 4 <= |doc|
  {
    HexValue(doc[i]) >= 0 && HexValue(doc[i + 1]) >= 0 && HexValue(doc[i + 2]) >= 0 && HexValue(doc[i + 3]) >= 0
  }

  function HexNumber(doc: string, i: nat): (n: nat)
    requires i + 4 <= |doc| && FourHex(doc, i)
    ensures n < 0x1_0000
  {
    0x1000 * HexValue(doc[i]) + 0x100 * HexValue(doc[i + 1]) + 0x10 * HexValue(doc[i + 2]) + HexValue(doc[i + 3])
  }

  lemma FourDigits(doc: string, i: nat, end: nat)
    requires i <= end <= |doc|
    ensures end < i + 4 ==>
              JsonString.EscapeUnit(doc, i, end) ==
              JsonString.BadUnit("Bad unicode escape sequence in string: four digits expected.", i)
    ensures i + 4 <= end && FourHex(doc, i) ==>
              JsonString.EscapeUnit(doc, i, end) == JsonString.Unit(HexNumber(doc, i), i + 4)
    ensures i + 4 <= end && !FourHex(doc, i) ==>
              exists k :: i <= k < i + 4 && HexValue(doc[k]) < 0 && (forall x :: i <= x < k ==> HexValue(doc[x]) >= 0)
                          && JsonString.EscapeUnit(doc, i, end) ==
                             JsonString.BadUnit(
                               "Bad unicode escape sequence in string: hexadecimal digit expected.", k + 1)
  {
    hide HexValue;
    if i + 4 <= end {
      var a, b, c, d := HexValue(doc[i]), HexValue(doc[i + 1]), HexValue(doc[i + 2]), HexValue(doc[i + 3]);
      HexUnitStep(doc, i, 4, 0);
      if a >= 0 {
        HexUnitStep(doc, i + 1, 3, a);
        if b >= 0 {
          HexUnitStep(doc, i + 2, 2, a * 16 + b);
          if c >= 0 {
            HexUnitStep(doc, i + 3, 1, (a * 16 + b) * 16 + c);
            if d >= 0 {
              assert JsonString.HexUnit(doc, i + 4, 0, ((a * 16 + b) * 16 + c) * 16 + d) ==
                     JsonString.Unit(HexNumber(doc, i), i + 4);
            }
          }
        }
      }
    }
  }

  lemma HexUnitStep(doc: string, i: nat, left: nat, code: int)
    requires i + left <= |doc| && left > 0 && code >= 0
    ensures JsonString.HexUnit(doc, i, left, code) ==
            if HexValue(doc[i]) < 0 then
              JsonString.BadUnit("Bad unicode escape sequence in string: hexadecimal digit expected.", i + 1)
            else JsonString.HexUnit(doc, i + 1, left - 1, code * 16 + HexValue(doc[i]))
  {
    hide HexValue;
  }

  /** A unicode escape stands for the number of its four digits; a high surrogate asks for another
      escape, of which the ten low bits are taken, whatever it is. */
  lemma UnicodeEscapeMeans(doc: string, i: nat, end: nat, decoded: string)
    requires i + 6 <= end <= |doc| && doc[i] == '\\' && doc[i + 1] == 'u' && FourHex(doc, i + 2)
    ensures var n := HexNumber(doc, i + 2);
            var d := JsonString.DecodeBody(doc, i, end, decoded);
            if !(0xD800 <= n <= 0xDBFF) then
              d == JsonString.DecodeBody(doc, i + 6, end, decoded + Utf8.CodePointToUtf8(n))
            else if end < i + 12 then
              d == JsonString.BadText("additional six characters expected to parse unicode surrogate pair.", i + 6)
            else if doc[i + 6] != '\\' || doc[i + 7] != 'u' then
              d == JsonString.BadText(
                     "expecting another \\u token to begin the second half of a unicode surrogate pair",
                     if doc[i + 6] != '\\' then i + 7 else i + 8)
            else FourHex(doc, i + 8) ==>
              d == JsonString.DecodeBody(doc, i + 12, end,
                     decoded + Utf8.CodePointToUtf8(0x10000 + n % 0x400 * 0x400 + HexNumber(doc, i + 8) % 0x400))
  {
    hide HexValue, FourHex, HexNumber, JsonString.EscapeUnit, Utf8.CodePointToUtf8;
    FourDigits(doc, i + 2, end);
    if end >= i + 12 {
      FourDigits(doc, i + 8, end);
    }
  }

  /** How valueToQuotedString writes each character. */
  lemma EscapeIs(c: char)
    ensures var n := c as int;
            JsonString.Escape(c) ==
            if n == 34 then "\\\"" else if n == 92 then "\\\\" else if n == 8 then "\\b" else if n == 12 then "\\f"
            else if n == 10 then "\\n" else if n == 13 then "\\r" else if n == 9 then "\\t"
            else if 0 < n < 32 then "\\u00" + ["0123456789ABCDEF"[n / 16], "0123456789ABCDEF"[n % 16]]
            else [c]
  {
  }

  /** Hexadecimal digits of either case. */
  lemma HexDigits(k: nat)
    requires k < 16
    ensures HexValue("0123456789abcdef"[k]) == k && HexValue("0123456789ABCDEF"[k]) == k
  {
  }

  lemma NoOtherHexDigits(c: char)
    ensures HexValue(c) < 0 <==> c !in "0123456789abcdefABCDEF"
  {
    var all := "0123456789abcdefABCDEF";
    var v := HexValue(c);
    if v >= 0 {
      assert all[if 'A' <= c <= 'F' then v + 6 else v] == c;
    }
  }

  // ---------------------------------------------------------------- UTF-8

  /** Characters of one to four bytes. */
  lemma Utf8Examples()
    ensures Utf8.CodePointToUtf8(0x24) == [0x24 as char]
    ensures Utf8.CodePointToUtf8(0xA2) == [0xC2 as char, 0xA2 as char]
    ensures Utf8.CodePointToUtf8(0x20AC) == [0xE2 as char, 0x82 as char, 0xAC as char]
    ensures Utf8.CodePointToUtf8(0x10348) == [0xF0 as char, 0x90 as char, 0x8D as char, 0x88 as char]
  {
  }

  /** A number above the last character gives nothing, and a surrogate alone three bytes. */
  lemma Utf8OfOthers(cp: nat)
    ensures cp > 0x10FFFF ==> Utf8.CodePointToUtf8(cp) == ""
    ensures 0xD800 <= cp <= 0xDFFF ==> |Utf8.CodePointToUtf8(cp)| == 3
  {
  }
}

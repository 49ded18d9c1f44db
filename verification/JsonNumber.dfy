/** Decimal integers: valueToString in json/src/json_writer.cpp and decodeNumber in
    json/src/json_reader.cpp. */
module JsonNumber {
  import opened Common
  import opened JsonValue
  import opened Text

  newtype uint32 = x: int | 0 <= x < 0x1_0000_0000

  predicate IsDigit(c: char) {
    '0' <= c <= '9'
  }

  /** The characters that readNumber accepts into a number token. */
  predicate IsNumberChar(c: char) {
    IsDigit(c) || c == '.' || c == 'e' || c == 'E' || c == '+' || c == '-'
  }

  predicate AllDigits(s: string) {
    forall k :: 0 <= k < |s| ==> IsDigit(s[k])
  }

  function DigitValue(c: char): int {
    c as int - '0' as int
  }

  /** The number that a digit string continues from v, in base ten. */
  function Extend(v: int, s: string): int
    decreases s
  {
    if s == "" then v else Extend(v * 10 + DigitValue(s[0]), s[1..])
  }

  /** The number a digit string denotes. */
  function Denotes(s: string): int {
    Extend(0, s)
  }

  lemma {:induction false} ExtendConcat(v: int, a: string, b: string)
    ensures Extend(v, a + b) == Extend(Extend(v, a), b)
    decreases a
  {
    if a == "" {
      assert a + b == b;
    } else {
      assert (a + b)[1..] == a[1..] + b;
      ExtendConcat(v * 10 + DigitValue(a[0]), a[1..], b);
    }
  }

  lemma {:induction false} ExtendGrows(v: int, s: string)
    requires v >= 0 && AllDigits(s)
    ensures Extend(v, s) >= v
    decreases s
  {
    if s != "" {
      ExtendGrows(v * 10 + DigitValue(s[0]), s[1..]);
    }
  }

  // ---------------------------------------------------------------- printing

  function DigitChar(d: int): char
    requires 0 <= d < 10
  {
    ('0' as int + d) as char
  }

  /** Shortest decimal text of a natural number. */
  function Digits(n: nat): string {
    if n < 10 then [DigitChar(n)] else Digits(n / 10) + [DigitChar(n % 10)]
  }

  function IntText(i: int): string {
    if i < 0 then "-" + Digits(-i) else Digits(i)
  }

  lemma {:induction false} DigitsDenote(n: nat)
    ensures AllDigits(Digits(n)) && Digits(n) != ""
    ensures Denotes(Digits(n)) == n
    ensures n > 0 ==> Digits(n)[0] != '0'
  {
    if n >= 10 {
      DigitsDenote(n / 10);
      ExtendConcat(0, Digits(n / 10), [DigitChar(n % 10)]);
      assert Extend(n / 10, [DigitChar(n % 10)]) == n;
    } else {
      assert Extend(0, [DigitChar(n)]) == n;
    }
  }

  ghost function Pow10(k: nat): nat {
    if k == 0 then 1 else 10 * Pow10(k - 1)
  }

  lemma {:induction false} DigitsFit(n: nat, k: nat)
    requires k >= 1 && n < Pow10(k)
    ensures |Digits(n)| <= k
  {
    if n >= 10 {
      assert Pow10(1) == 10;
      DigitsFit(n / 10, k - 1);
    }
  }

  /** The last digit moves to the digits already written. */
  lemma MovesDigit(n: nat, done: string)
    ensures var moved := [DigitChar(n % 10)] + done;
            Digits(n) + done == if n >= 10 then Digits(n / 10) + moved else moved
  {
    if n >= 10 {
      Assoc(Digits(n / 10), [DigitChar(n % 10)], done);
    }
  }

  /** Fills the buffer backwards from its end: a terminator, then the digits. */
  method UIntToString(value: uint32, buffer: array<char>, current: nat) returns (first: nat)
    requires 11 <= current <= buffer.Length
    modifies buffer
    ensures first < current && current - first <= 11
    ensures buffer[first..current] == Digits(value as int) + "\0"
    ensures forall k :: 0 <= k < buffer.Length && !(first <= k < current) ==> buffer[k] == old(buffer[k])
  {
    hide Digits;
    DigitsFit(value as int, 10);
    first := current - 1;
    buffer[first] := '\0';
    var rest, more := value, true;
    ghost var done := "";
    assert Digits(value as int) + done == Digits(value as int);
    while more
      invariant first == current - 1 - |done|
      invariant if more then Digits(rest as int) + done == Digits(value as int) else done == Digits(value as int)
      invariant buffer[first..current] == done + "\0"
      invariant forall k :: 0 <= k < buffer.Length && !(first <= k < current) ==> buffer[k] == old(buffer[k])
      decreases if more then rest as int + 1 else 0
    {
      MovesDigit(rest as int, done);
      ghost var written := buffer[first..current];
      first := first - 1;
      buffer[first] := DigitChar((rest % 10) as int);
      assert buffer[first..current] == [DigitChar((rest % 10) as int)] + written;
      Assoc([DigitChar((rest % 10) as int)], done, "\0");
      done := [DigitChar((rest % 10) as int)] + done;
      rest := rest / 10;
      more := rest != 0;
    }
  }

  /** A terminated text at the end of a buffer, with or without a sign in front. */
  lemma SignedText(buffer: seq<char>, first: nat, digits: string, sign: string)
    requires first + |sign| <= |buffer| && |sign| <= 1
    requires buffer[first..first + |sign|] == sign && buffer[first + |sign|..] == digits + "\0"
    ensures first < |buffer| && buffer[first..|buffer| - 1] == sign + digits
  {
    assert buffer[first..] == sign + (digits + "\0");
    Assoc(sign, digits, "\0");
    assert buffer[first..|buffer| - 1] == buffer[first..][..|buffer| - 1 - first];
  }

  /** valueToString(Int) and valueToString(UInt): the text in a 32 byte buffer. */
  method ValueToString(i: int) returns (text: string)
    requires MIN_INT <= i <= MAX_UINT
    ensures text == IntText(i)
  {
    hide Digits;
    var buffer := new char[32];
    var magnitude := (if i < 0 then -i else i) as uint32;
    var first := UIntToString(magnitude, buffer, 32);
    ghost var digits := buffer[first..32];
    if i < 0 {
      first := first - 1;
      buffer[first] := '-';
      assert buffer[first + 1..32] == digits;
    }
    text := buffer[first..31];
    SignedText(buffer[..], first, Digits(magnitude as int), if i < 0 then "-" else "");
    assert text == buffer[..][first..31];
  }

  // ---------------------------------------------------------------- decoding

  /** Any of these makes decodeNumber hand the token to decodeDouble at once. */
  predicate LooksReal(text: string) {
    exists k :: 0 <= k < |text| && MarksReal(text, k)
  }

  predicate MarksReal(text: string, k: nat)
    requires k < |text|
  {
    text[k] == '.' || text[k] == 'e' || text[k] == 'E' || text[k] == '+' || (text[k] == '-' && k > 0)
  }

  datatype Accumulated = Total(value: int) | TooBig | BadDigit

  /** The digit loop: the threshold is compared before each digit is taken in. */
  function Accumulate(digits: string, threshold: int, value: int): Accumulated
    decreases digits
  {
    if digits == "" then Total(value)
    else if !IsDigit(digits[0]) then BadDigit
    else if value >= threshold then TooBig
    else Accumulate(digits[1..], threshold, value * 10 + DigitValue(digits[0]))
  }

  predicate IsNegative(text: string) {
    text != "" && text[0] == '-'
  }

  function Threshold(negative: bool): int {
    (if negative then -MIN_INT else MAX_UINT) / 10
  }

  /** The value of a number token; `scan` stands for sscanf("%lf"). */
  function DecodeNumber(text: string, scan: string -> Option<real>): Option<Value> {
    if LooksReal(text) then DecodeDouble(text, scan)
    else
      var negative := IsNegative(text);
      match Accumulate(if negative then text[1..] else text, Threshold(negative), 0)
      case BadDigit => None
      case TooBig => DecodeDouble(text, scan)
      case Total(n) => Some(if negative then Int(-n) else if n <= MAX_INT then Int(n) else UInt(n))
  }

  function DecodeDouble(text: string, scan: string -> Option<real>): Option<Value> {
    match scan(text)
    case None => None
    case Some(r) => Some(Real(r))
  }

  /** The loop answers with the mathematical value exactly when that value is below
      ten times the threshold. */
  lemma {:induction false} AccumulateExact(digits: string, threshold: int, value: int)
    requires AllDigits(digits) && 0 <= value < 10 * threshold
    ensures Accumulate(digits, threshold, value) ==
            if Extend(value, digits) < 10 * threshold then Total(Extend(value, digits)) else TooBig
    decreases digits
  {
    if digits != "" {
      var next := value * 10 + DigitValue(digits[0]);
      if value >= threshold {
        ExtendGrows(next, digits[1..]);
      } else {
        AccumulateExact(digits[1..], threshold, next);
      }
    }
  }

  /** An optionally signed digit string is decoded as an integer, and then as its
      mathematical value, exactly when it is in [-2147483639, 4294967289];
      otherwise it is left to decodeDouble. */
  lemma DecodeIntegerExactly(negative: bool, digits: string, scan: string -> Option<real>)
    requires AllDigits(digits)
    requires negative || digits != ""
    ensures var text := (if negative then "-" else "") + digits;
            var n := if negative then -Denotes(digits) else Denotes(digits);
            DecodeNumber(text, scan) ==
            if n < -2147483639 || n > 4294967289 then DecodeDouble(text, scan)
            else if n <= MAX_INT then Some(Int(n)) else Some(UInt(n))
  {
    var text := (if negative then "-" else "") + digits;
    assert negative ==> text[1..] == digits;
    assert !negative ==> text == digits && IsDigit(text[0]);
    assert !LooksReal(text);
    ExtendGrows(0, digits);
    AccumulateExact(digits, Threshold(negative), 0);
  }

  /** decodeNumber inverts valueToString on [-2147483639, 4294967289] and on no
      other integer. */
  lemma DecodeInvertsPrint(i: int, scan: string -> Option<real>)
    ensures -2147483639 <= i <= 4294967289 <==>
            DecodeNumber(IntText(i), scan) == Some(if i <= MAX_INT then Int(i) else UInt(i))
  {
    var n: nat := if i < 0 then -i else i;
    DigitsDenote(n);
    assert IntText(i) == (if i < 0 then "-" else "") + Digits(n);
    DecodeIntegerExactly(i < 0, Digits(n), scan);
  }

  /** Hundreds, tens and ones, and the sign. */
  lemma ThreeDigits()
    ensures IntText(907) == "907" && IntText(-907) == "-907" && IntText(0) == "0"
  {
  }

  // ---------------------------------------------------------------- which texts are scanned

  predicate NumberCharacters(text: string) {
    forall k :: 0 <= k < |text| ==> text[k] in "0123456789.eE+-"
  }

  /** Digits, behind a minus or not. */
  predicate PlainInteger(text: string) {
    forall k :: 0 <= k < |text| ==> text[k] in "0123456789" || (k == 0 && text[k] == '-')
  }

  function IntegerValue(text: string): int {
    if text != "" && text[0] == '-' then -Denotes(text[1..]) else Denotes(text)
  }

  /** An integer that decodeNumber decodes by itself. */
  predicate SmallInteger(text: string) {
    PlainInteger(text) && -2147483639 <= IntegerValue(text) <= 4294967289
  }

  lemma NumberCharacter(c: char)
    ensures c in "0123456789.eE+-" <==> IsNumberChar(c)
    ensures c in "0123456789" <==> IsDigit(c)
  {
    var all, digits := "0123456789.eE+-", "0123456789";
    if IsDigit(c) {
      assert all[c as int - 48] == digits[c as int - 48] == c;
    } else if IsNumberChar(c) {
      assert c == all[10] || c == all[11] || c == all[12] || c == all[13] || c == all[14];
    }
  }

  /** A number text that is not a plain integer is what the C library scans, whatever integer its
      digits would make: a point, an exponent or an inner sign is enough. */
  lemma RealsAreScanned(text: string, scan: string -> Option<real>)
    requires NumberCharacters(text) && !PlainInteger(text)
    ensures match scan(text)
            case Some(r) => DecodeNumber(text, scan) == Some(Real(r))
            case None => DecodeNumber(text, scan) == None
  {
    hide Accumulate;
    var k :| 0 <= k < |text| && !(text[k] in "0123456789" || (k == 0 && text[k] == '-'));
    NumberCharacter(text[k]);
    assert MarksReal(text, k);
  }

  /** What any text over the characters of numbers decodes to: integers in the decoder's range to
      themselves, everything else to what the C library makes of it. */
  lemma DecodesExactly(text: string, scan: string -> Option<real>)
    requires NumberCharacters(text) && text != ""
    ensures DecodeNumber(text, scan) ==
            if SmallInteger(text) then
              Some(if IntegerValue(text) <= MAX_INT then Int(IntegerValue(text)) else UInt(IntegerValue(text)))
            else match scan(text)
              case Some(r) => Some(Real(r))
              case None => None
  {
    hide DecodeNumber, Denotes;
    if PlainInteger(text) {
      var negative := text[0] == '-';
      var digits := if negative then text[1..] else text;
      assert text == (if negative then "-" else "") + digits;
      forall k | 0 <= k < |digits| ensures IsDigit(digits[k]) {
        NumberCharacter(digits[k]);
        assert digits[k] == text[if negative then k + 1 else k];
      }
      DecodeIntegerExactly(negative, digits, scan);
    } else {
      RealsAreScanned(text, scan);
    }
  }

  /** Printed integers are plain integers of their value. */
  lemma IntTextIsPlain(i: int)
    ensures IntText(i) != "" && PlainInteger(IntText(i)) && NumberCharacters(IntText(i))
    ensures IntegerValue(IntText(i)) == i
  {
    var n: nat := if i < 0 then -i else i;
    var text := IntText(i);
    DigitsDenote(n);
    assert i < 0 ==> text[1..] == Digits(n);
    forall k | 0 <= k < |text| ensures text[k] in "0123456789.eE+-"
      ensures text[k] in "0123456789" || (k == 0 && text[k] == '-')
    {
      NumberCharacter(text[k]);
      assert i < 0 && k > 0 ==> text[k] == Digits(n)[k - 1];
    }
    NumberCharacter(text[0]);
  }

  lemma IntTextShape(i: int)
    ensures IntText(i) != "" && (IntText(i)[0] == '-' || IsDigit(IntText(i)[0]))
    ensures forall k :: 0 <= k < |IntText(i)| ==> IsNumberChar(IntText(i)[k])
  {
    DigitsDenote(if i < 0 then -i else i);
  }
}

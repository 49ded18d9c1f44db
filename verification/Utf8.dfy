/** codePointToUTF8 in json/src/json_reader.cpp against the definition of UTF-8 in
    RFC 3629. A byte is a char below 256. */
module Utf8 {
  /** A Unicode scalar value: a code point that is not a surrogate. */
  predicate IsScalar(cp: int) {
    0 <= cp <= 0x10FFFF && !(0xD800 <= cp <= 0xDFFF)
  }

  function Byte(n: int): char
    requires 0 <= n < 256
  {
    n as char
  }

  /** The masks and shifts of the source as remainders and quotients. */
  function CodePointToUtf8(cp: int): string
    requires cp >= 0
  {
    if cp <= 0x7F then [Byte(cp)]
    else if cp <= 0x7FF then [Byte(0xC0 + cp / 64 % 32), Byte(0x80 + cp % 64)]
    else if cp <= 0xFFFF then
      [Byte(0xE0 + cp / 4096 % 16), Byte(0x80 + cp / 64 % 64), Byte(0x80 + cp % 64)]
    else if cp <= 0x10FFFF then
      [Byte(0xF0 + cp / 262144 % 8), Byte(0x80 + cp / 4096 % 64), Byte(0x80 + cp / 64 % 64), Byte(0x80 + cp % 64)]
    else ""
  }

  predicate In(c: char, low: int, high: int) {
    low <= c as int <= high
  }

  predicate IsTail(c: char) {
    In(c, 0x80, 0xBF)
  }

  /** The production UTF8-char of RFC 3629 section 4. */
  predicate WellFormed(b: string) {
    match |b|
    case 1 => In(b[0], 0x00, 0x7F)
    case 2 => In(b[0], 0xC2, 0xDF) && IsTail(b[1])
    case 3 =>
      && IsTail(b[2])
      && (|| (In(b[0], 0xE0, 0xE0) && In(b[1], 0xA0, 0xBF))
          || (In(b[0], 0xE1, 0xEC) && IsTail(b[1]))
          || (In(b[0], 0xED, 0xED) && In(b[1], 0x80, 0x9F))
          || (In(b[0], 0xEE, 0xEF) && IsTail(b[1])))
    case 4 =>
      && IsTail(b[2]) && IsTail(b[3])
      && (|| (In(b[0], 0xF0, 0xF0) && In(b[1], 0x90, 0xBF))
          || (In(b[0], 0xF1, 0xF3) && IsTail(b[1]))
          || (In(b[0], 0xF4, 0xF4) && In(b[1], 0x80, 0x8F)))
    case _ => false
  }

  /** The character number that a well-formed sequence carries (RFC 3629 section 3). */
  function Decode(b: string): int
    requires WellFormed(b)
  {
    match |b|
    case 1 => b[0] as int
    case 2 => (b[0] as int - 0xC0) * 64 + (b[1] as int - 0x80)
    case 3 => (b[0] as int - 0xE0) * 4096 + (b[1] as int - 0x80) * 64 + (b[2] as int - 0x80)
    case _ =>
      (b[0] as int - 0xF0) * 262144 + (b[1] as int - 0x80) * 4096
      + (b[2] as int - 0x80) * 64 + (b[3] as int - 0x80)
  }

  /** Splitting a number into six bit groups. */
  lemma SixBits(high: int, low: int)
    requires 0 <= low < 64
    ensures (high * 64 + low) / 64 == high && (high * 64 + low) % 64 == low
  {
  }

  /** The encoder writes the well-formed sequence of every scalar value. */
  lemma EncodesWellFormed(cp: int)
    requires IsScalar(cp)
    ensures WellFormed(CodePointToUtf8(cp)) && Decode(CodePointToUtf8(cp)) == cp
  {
    if cp <= 0x7FF {
      assert cp / 64 % 32 == cp / 64;
    } else if cp <= 0xFFFF {
      EncodesThreeBytes(cp);
    } else {
      EncodesFourBytes(cp);
    }
  }

  lemma EncodesThreeBytes(cp: int)
    requires IsScalar(cp) && 0x800 <= cp <= 0xFFFF
    ensures WellFormed(CodePointToUtf8(cp)) && Decode(CodePointToUtf8(cp)) == cp
  {
    var h := cp / 64;
    var g := h / 64;
    assert cp / 4096 == g && g % 16 == g;
    assert cp == h * 64 + cp % 64 && h == g * 64 + h % 64;
  }

  lemma EncodesFourBytes(cp: int)
    requires 0x10000 <= cp <= 0x10FFFF
    ensures WellFormed(CodePointToUtf8(cp)) && Decode(CodePointToUtf8(cp)) == cp
  {
    var h := cp / 64;
    var g := h / 64;
    var f := g / 64;
    assert cp / 4096 == g && cp / 262144 == f && f % 8 == f;
    assert cp == h * 64 + cp % 64 && h == g * 64 + h % 64 && g == f * 64 + g % 64;
  }

  /** There is no other well-formed sequence for it, and none for a surrogate. */
  lemma EncodingIsUnique(b: string)
    requires WellFormed(b)
    ensures IsScalar(Decode(b)) && CodePointToUtf8(Decode(b)) == b
  {
    if |b| == 2 {
      SixBits(b[0] as int - 0xC0, b[1] as int - 0x80);
    } else if |b| == 3 {
      ThreeBytesUnique(b);
    } else if |b| == 4 {
      FourBytesUnique(b);
    }
  }

  lemma ThreeBytesUnique(b: string)
    requires WellFormed(b) && |b| == 3
    ensures IsScalar(Decode(b)) && CodePointToUtf8(Decode(b)) == b
  {
    var x, y, z := b[0] as int - 0xE0, b[1] as int - 0x80, b[2] as int - 0x80;
    var cp, h := Decode(b), x * 64 + y;
    SixBits(h, z);
    SixBits(x, y);
    assert cp == h * 64 + z && cp / 64 == h && cp / 4096 == x;
    assert 0x800 <= cp <= 0xFFFF;
  }

  lemma FourBytesUnique(b: string)
    requires WellFormed(b) && |b| == 4
    ensures IsScalar(Decode(b)) && CodePointToUtf8(Decode(b)) == b
  {
    var w, x, y, z := b[0] as int - 0xF0, b[1] as int - 0x80, b[2] as int - 0x80, b[3] as int - 0x80;
    var cp, g := Decode(b), w * 64 + x;
    var h := g * 64 + y;
    SixBits(h, z);
    SixBits(g, y);
    SixBits(w, x);
    assert cp == h * 64 + z && cp / 64 == h && cp / 4096 == g && cp / 262144 == w;
    assert 0x10000 <= cp <= 0x10FFFF;
  }
}

/** The pieces that the generated message classes repeat for each field: a text with its
    length, its setter, and reading and writing one field. */
module Texts {
  import opened Common
  import opened Codec
  import opened Text

  /** A char* and its length as the classes keep them; the buffer has room for the text and a
      terminator, and exists only for lengths from 1 to 0xfffe. */
  datatype CText = CText(chars: seq<Byte>, len: nat)

  const NULL_TEXT := CText([], NULL_LENGTH)

  ghost predicate WellFormed(t: CText) {
    if t.len == 0 || t.len == NULL_LENGTH then t.chars == []
    else t.len < NULL_LENGTH && |t.chars| == t.len + 1
  }

  /** The text itself; None for null. */
  function TextOf(t: CText): (text: Option<seq<Byte>>)
    requires WellFormed(t)
    ensures text.Some? ==> |text.value| < NULL_LENGTH
  {
    if t.len == NULL_LENGTH then None else Some(t.chars[..t.len])
  }

  /** The characters that go out for a text: none for null. */
  function CharsOf(t: CText): (s: seq<Byte>)
    requires WellFormed(t)
    ensures |s| == if t.len == 0xffff then 0 else t.len
  {
    if t.len == 0xffff then [] else t.chars[..t.len]
  }

  lemma LengthFits(t: CText)
    requires WellFormed(t)
    ensures t.len <= 0xffff
  {
  }

  /** A text goes out as its 16-bit length, 0xffff for null, and its characters. */
  lemma TextWire(t: CText)
    requires WellFormed(t)
    ensures FieldBytes(Text(TextOf(t))) == TextBytesOf(t)
  {
    hide Bytes;
    TwoBytes(t.len);
  }

  /** A text as it goes out: the length 0xffff, or its length in 16 bits and its characters. */
  function TextBytesOf(t: CText): seq<Byte>
    requires WellFormed(t)
  {
    [t.len % 256, t.len / 256] + CharsOf(t)
  }

  /** The text stands in memory in that form. */
  ghost predicate TextAt(m: Memory, p: nat, t: CText)
    requires WellFormed(t)
  {
    t.len == m(p) + 256 * m(p + 1) && forall k :: 0 <= k < |CharsOf(t)| ==> m(p + 2 + k) == CharsOf(t)[k]
  }

  /** How many bytes it takes there. */
  function TextSize(t: CText): nat {
    if t.len == 0xffff then 2 else 2 + t.len
  }

  lemma TextSizes(t: CText)
    requires WellFormed(t)
    ensures |TextBytesOf(t)| == TextSize(t)
  {
  }

  lemma TextPlaced(m: Memory, p: nat, t: CText)
    requires WellFormed(t) && Placed(m, p, TextBytesOf(t))
    ensures TextAt(m, p, t)
  {
    var s := [t.len % 256, t.len / 256] + CharsOf(t);
    assert m(p + 0) == s[0] && m(p + 1) == s[1];
    forall k | 0 <= k < |CharsOf(t)| ensures m(p + 2 + k) == CharsOf(t)[k] {
      assert m(p + (2 + k)) == s[2 + k];
    }
  }

  /** The length of a C string in memory that holds a terminator. */
  function StrLen(s: seq<Byte>): (n: nat)
    requires 0 in s
    ensures n < |s| && s[n] == 0 && forall k :: 0 <= k < n ==> s[k] != 0
  {
    if s[0] == 0 then 0 else 1 + StrLen(s[1..])
  }

  /** What a setter is to store: the length 0xffff asks for the C string's own length, of
      which 16 bits are kept. */
  function Stored(s: Option<seq<Byte>>, len: nat): (r: nat)
    requires s.Some? && len == NULL_LENGTH ==> 0 in s.value
  {
    if len == NULL_LENGTH && s.Some? then StrLen(s.value) % 0x1_0000 else len
  }

  /** What the source asks of a setter's caller: the text is readable up to its length. */
  ghost predicate Settable(s: Option<seq<Byte>>, len: nat) {
    && len <= NULL_LENGTH
    && (s.Some? ==> if len == NULL_LENGTH then 0 in s.value else len <= |s.value|)
  }

  /** What text a setter may leave behind: the one given, of the length to be stored. A null
      pointer with a length leaves that many bytes of new memory, whatever they are. */
  ghost predicate Sets(s: Option<seq<Byte>>, len: nat, text: Option<seq<Byte>>)
    requires Settable(s, len)
  {
    var n := Stored(s, len);
    if n == NULL_LENGTH then text == None
    else text.Some? && |text.value| == n && (s.Some? ==> text.value == s.value[..n])
  }

  /** new char[n] */
  method NewChars(n: nat) returns (chars: seq<Byte>)
    ensures |chars| == n
  {
    chars := seq(n, _ => 0);
  }

  /** SetPlatform and its like: replacing the owned buffer; a copied text is terminated. */
  method Replace(old_: CText, s: Option<seq<Byte>>, length: nat) returns (t: CText)
    requires WellFormed(old_) && Settable(s, length)
    ensures WellFormed(t) && Sets(s, length, TextOf(t))
    ensures s.Some? && length < 0xffff ==> TextOf(t) == Some(s.value[..length])
    ensures s.Some? && length == 0xffff ==>
              var n := StrLen(s.value) % 0x1_0000; TextOf(t) == if n == 0xffff then None else Some(s.value[..n])
    ensures s.None? && length == 0xffff ==> TextOf(t) == None
    ensures s.None? && length < 0xffff ==> TextOf(t).Some? && |TextOf(t).value| == length
    ensures s.Some? && 0 < t.len < NULL_LENGTH ==> t.chars[t.len] == 0
  {
    var len := length;
    if len == NULL_LENGTH && s.Some? {
      len := StrLen(s.value) % 0x1_0000;
    }
    if old_.len == 0 && len == 0 {
      return old_;
    }
    if old_.len == NULL_LENGTH && len == NULL_LENGTH {
      return old_;
    }
    t := NULL_TEXT;
    if len > 0 && len != NULL_LENGTH {
      var chars := NewChars(len + 1);
      t := t.(chars := chars);
    }
    if s.Some? && len > 0 && len != NULL_LENGTH {
      t := t.(chars := s.value[..len] + [0]);
    }
    t := t.(len := len);
  }

  /** The stream that Serialize appends to. */
  class Stream {
    var bytes: seq<Byte>

    constructor ()
      ensures bytes == []
    {
      bytes := [];
    }

    method Put(b: Byte)
      modifies this
      ensures bytes == old(bytes) + [b]
    {
      bytes := bytes + [b];
    }

    method PutNumber(n: nat)
      requires n < 256
      modifies this
      ensures bytes == old(bytes) + Bytes(1, n)
    {
      assert Bytes(0, n / 256) == [];
      Put(n);
    }

    method Write(s: seq<Byte>)
      modifies this
      ensures bytes == old(bytes) + s
    {
      bytes := bytes + s;
    }

    /** A text's length, and its bytes when it has any. */
    method WriteText(t: CText)
      requires WellFormed(t)
      modifies this
      ensures bytes == old(bytes) + FieldBytes(Text(TextOf(t)))
    {
      hide Bytes;
      ghost var start, text := bytes, if TextOf(t).Some? then TextOf(t).value else [];
      Assoc(start, Bytes(2, t.len), text);
      Write(Bytes(2, t.len));
      if t.len > 0 && t.len != NULL_LENGTH {
        Write(t.chars[..t.len]);
      }
    }
  }

  /** Reading a text over the old one. */
  method ReadText(m: Memory, from: nat, limit: int, old_: CText)
    returns (ok: bool, t: CText, buf: nat, count: int)
    requires WellFormed(old_)
    ensures WellFormed(t)
    ensures ReadField(m, Cursor(from, limit), Text(TextOf(old_))) == Read(ok, Text(TextOf(t)), Cursor(buf, count))
  {
    t, buf, count := old_, from, limit - 2;
    if count < 0 {
      return false, t, buf, count;
    }
    var len := Number(m, buf, 2);
    TextLengthBound();
    NumberBelow(m, buf, 2);
    buf := buf + 2;
    if len == NULL_LENGTH {
      t := Replace(t, None, NULL_LENGTH);
    } else if len == 0 {
      t := Replace(t, Some([0]), 0);
    } else {
      count := count - len;
      if count < 0 {
        return false, t, buf, count;
      }
      t := Replace(t, Some(Slice(m, buf, len)), len);
      assert Slice(m, buf, len)[..len] == Slice(m, buf, len);
      buf := buf + len;
    }
    return true, t, buf, count;
  }

  /** Reading a little-endian number; without enough bytes nothing is read. */
  method ReadNumber(m: Memory, from: nat, limit: int, width: nat)
    returns (ok: bool, number: nat, buf: nat, count: int)
    requires width > 0
    ensures number < Power256(width)
    ensures forall n :: ReadField(m, Cursor(from, limit), Num(width, n)) ==
                        Read(ok, Num(width, if ok then number else n), Cursor(buf, count))
  {
    NumberBelow(m, from, width);
    number, buf, count := 0, from, limit - width;
    if count < 0 {
      return false, number, buf, count;
    }
    number := Number(m, buf, width);
    return true, number, buf + width, count;
  }

  lemma Widths()
    ensures Power256(1) == 256 && Power256(2) == 0x1_0000 && Power256(4) == 0x1_0000_0000
  {
    assert Power256(3) == 0x100_0000;
  }

  // ---------------------------------------------------------------- writing field by field

  lemma WritesFields(done: seq<Byte>, fields: seq<Field>)
    requires AllFit(fields)
    ensures (done + [0]) + FieldsBytes(fields[0..]) == done + ObjectBytes(fields)
  {
    assert fields[0..] == fields;
    Assoc(done, [0], FieldsBytes(fields));
  }

  lemma WroteField(done: seq<Byte>, fields: seq<Field>, k: nat, whole: seq<Byte>)
    requires AllFit(fields) && k < |fields|
    requires done + FieldsBytes(fields[k..]) == whole
    ensures (done + FieldBytes(fields[k])) + FieldsBytes(fields[k + 1..]) == whole
  {
    assert fields[k..][1..] == fields[k + 1..];
    Assoc(done, FieldBytes(fields[k]), FieldsBytes(fields[k + 1..]));
  }

  lemma WroteFields(done: seq<Byte>, fields: seq<Field>, whole: seq<Byte>)
    requires AllFit(fields) && done + FieldsBytes(fields[|fields|..]) == whole
    ensures done == whole
  {
  }
}

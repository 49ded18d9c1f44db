/** The binary formatter behind stage/stage/model/AuthenticationAAA.h and xiyousdk/proto: an
    object is a zero byte followed by its fields, numbers are little-endian, and a text is
    its 16-bit length, 0xffff for null, and its bytes. Reading moves a cursor, an address
    and the number of bytes that may still be read. */
module Codec {
  import opened Common

  /** All of memory: reading is not confined to a buffer. */
  type Memory = nat -> Byte

  datatype Cursor = Cursor(buf: nat, count: int)

  const NULL_LENGTH := 0xffff

  // ---------------------------------------------------------------- numbers

  function Bytes(width: nat, n: nat): (r: seq<Byte>)
    ensures |r| == width
  {
    if width == 0 then [] else [n % 256] + Bytes(width - 1, n / 256)
  }

  function Number(m: Memory, p: nat, width: nat): nat
    decreases width
  {
    if width == 0 then 0 else m(p) + 256 * Number(m, p + 1, width - 1)
  }

  function Power256(width: nat): nat {
    if width == 0 then 1 else 256 * Power256(width - 1)
  }

  /** The bytes s stand in memory at address p. */
  ghost predicate Placed(m: Memory, p: nat, s: seq<Byte>) {
    forall k :: 0 <= k < |s| ==> m(p + k) == s[k]
  }

  lemma PlacedConcat(m: Memory, p: nat, a: seq<Byte>, b: seq<Byte>)
    ensures Placed(m, p, a + b) <==> Placed(m, p, a) && Placed(m, p + |a|, b)
  {
    if Placed(m, p, a + b) {
      forall k | 0 <= k < |a| ensures m(p + k) == a[k] {
        assert (a + b)[k] == a[k];
      }
      forall k | 0 <= k < |b| ensures m(p + |a| + k) == b[k] {
        assert (a + b)[|a| + k] == b[k];
      }
    }
  }

  /** A 16-bit number behind the byte it starts with. */
  lemma NumberAt(m: Memory, p: nat, s: seq<Byte>, k: nat, n: nat)
    requires Placed(m, p, s) && k + 1 < |s| && n < 0x1_0000 && s[k] == n % 256 && s[k + 1] == n / 256
    ensures n == m(p + k) + 256 * m(p + k + 1)
  {
    assert m(p + k) == s[k] && m(p + (k + 1)) == s[k + 1];
  }

  lemma FirstByte(m: Memory, p: nat, s: seq<Byte>)
    requires Placed(m, p, s) && s != []
    ensures m(p) == s[0]
  {
    assert m(p + 0) == s[0];
  }

  lemma ByteAt(m: Memory, p: nat, s: seq<Byte>, k: nat)
    requires Placed(m, p, s) && k < |s|
    ensures m(p + k) == s[k]
  {
  }

  lemma PlacedNothing(m: Memory, p: nat)
    ensures Placed(m, p, [])
  {
  }

  /** A number below its width's bound is in memory exactly when its bytes are. */
  lemma {:induction false} NumberIsBytes(m: Memory, p: nat, width: nat, n: nat)
    requires n < Power256(width)
    ensures Placed(m, p, Bytes(width, n)) <==> Number(m, p, width) == n
    decreases width
  {
    if width > 0 {
      var rest := Bytes(width - 1, n / 256);
      NumberIsBytes(m, p + 1, width - 1, n / 256);
      PlacedConcat(m, p, [n % 256], rest);
      assert Placed(m, p, [n % 256]) <==> m(p) == n % 256 by {
        assert [n % 256][0] == n % 256;
        assert m(p + 0) == m(p);
      }
      Digits(n, m(p), Number(m, p + 1, width - 1));
    }
  }

  lemma Digits(n: nat, low: Byte, high: nat)
    ensures n == low + 256 * high <==> low == n % 256 && high == n / 256
  {
  }

  lemma {:induction false} NumberBelow(m: Memory, p: nat, width: nat)
    ensures Number(m, p, width) < Power256(width)
    decreases width
  {
    if width > 0 {
      NumberBelow(m, p + 1, width - 1);
    }
  }

  /** Two's complement of 32 bits. */
  function Unsigned(i: int): int {
    if i < 0 then i + 0x1_0000_0000 else i
  }

  function Signed(u: int): (i: int)
    ensures 0 <= u < 0x1_0000_0000 ==> -0x8000_0000 <= i < 0x8000_0000 && Unsigned(i) == u
  {
    if u < 0x8000_0000 then u else u - 0x1_0000_0000
  }

  lemma DivideTwice(i: int)
    ensures i / 256 / 256 == i / 0x1_0000
  {
    var q, r := i / 256 / 256, i / 256 % 256;
    assert i == 0x1_0000 * q + (256 * r + i % 256);
  }

  lemma DivideThrice(i: int)
    ensures i / 0x1_0000 / 256 == i / 0x100_0000
  {
    var q, r := i / 0x1_0000 / 256, i / 0x1_0000 % 256;
    assert i == 0x100_0000 * q + (0x1_0000 * r + i % 0x1_0000);
  }

  lemma OneByte(n: nat)
    ensures Bytes(1, n) == [n % 256]
  {
    assert Bytes(0, n / 256) == [];
  }

  lemma TwoBytes(n: nat)
    ensures Bytes(2, n) == [n % 256, n / 256 % 256]
  {
    OneByte(n / 256);
  }

  lemma FourBytes(n: nat)
    ensures Bytes(4, n) == [n % 256, n / 256 % 256, n / 0x1_0000 % 256, n / 0x100_0000 % 256]
  {
    TwoBytes(n / 256 / 256);
    assert Bytes(3, n / 256) == [n / 256 % 256] + Bytes(2, n / 256 / 256);
    DivideTwice(n);
    DivideThrice(n);
  }

  lemma Shifted(i: int, q: int, d: int)
    requires d > 0
    ensures (i + d * q) / d == i / d + q && (i + d * q) % d == i % d
  {
    var a, r := i / d, i % d;
    assert i + d * q == d * (a + q) + r;
    DivideIs(i + d * q, d, a + q, r);
  }

  lemma DivideIs(n: int, d: int, q: int, r: int)
    requires n == d * q + r && 0 <= r < d
    ensures n / d == q && n % d == r
  {
    var a, s := n / d, n % d;
    Division(n, d);
    if a > q {
      Larger(d, a, q);
    } else if q > a {
      Larger(d, q, a);
    }
  }

  lemma Division(n: int, d: int)
    requires d > 0
    ensures n == d * (n / d) + n % d && 0 <= n % d < d
  {
  }

  lemma Larger(d: int, a: int, b: int)
    requires d > 0 && a > b
    ensures d * a >= d * b + d
  {
    assert d * (a - b - 1) >= 0;
    assert d * (a - b - 1) == d * a - d * b - d;
  }

  lemma FourParts(i: int)
    requires -0x8000_0000 <= i < 0x1_0000_0000
    ensures i % 256 + 256 * (i / 256 % 256) + 0x1_0000 * (i / 0x1_0000 % 256) + 0x100_0000 * (i / 0x100_0000 % 256) ==
            if i < 0 then i + 0x1_0000_0000 else i
    ensures i < 0x8000_0000 ==> (i / 0x100_0000 % 256 < 128 <==> i >= 0)
  {
    DivideTwice(i);
    DivideThrice(i);
    var a, b := i / 256, i / 0x1_0000;
    assert i == 256 * a + i % 256 && a == 256 * b + a % 256 && b == 256 * (b / 256) + b % 256;
    var c := i / 0x100_0000;
    assert -128 <= c < 256;
    assert c % 256 == if c < 0 then c + 256 else c;
  }

  /** A 32-bit number as its bytes stand in memory. */
  function Quad(m: Memory, p: nat): nat {
    m(p) + 256 * m(p + 1) + 0x1_0000 * m(p + 2) + 0x100_0000 * m(p + 3)
  }

  /** The same in two's complement. */
  function SignedQuad(m: Memory, p: nat): int {
    if m(p + 3) < 128 then Quad(m, p) else Quad(m, p) - 0x1_0000_0000
  }

  lemma QuadAt(m: Memory, p: nat, s: seq<Byte>, k: nat, i: int)
    requires Placed(m, p, s) && k + 3 < |s| && -0x8000_0000 <= i < 0x1_0000_0000
    requires s[k] == i % 256 && s[k + 1] == i / 256 % 256
    requires s[k + 2] == i / 0x1_0000 % 256 && s[k + 3] == i / 0x100_0000 % 256
    ensures Quad(m, p + k) == if i < 0 then i + 0x1_0000_0000 else i
    ensures i < 0x8000_0000 ==> i == SignedQuad(m, p + k)
  {
    assert m(p + k) == s[k] && m(p + (k + 1)) == s[k + 1];
    assert m(p + (k + 2)) == s[k + 2] && m(p + (k + 3)) == s[k + 3];
    FourParts(i);
  }

  /** The bytes of a signed number are those of its floor divisions. */
  lemma SignedBytes(i: int)
    requires -0x8000_0000 <= i < 0x8000_0000
    ensures Bytes(4, Unsigned(i)) == [i % 256, i / 256 % 256, i / 0x1_0000 % 256, i / 0x100_0000 % 256]
  {
    hide Bytes;
    FourBytes(Unsigned(i));
    if i < 0 {
      Shifted(i, 0x100_0000, 256);
      Shifted(i / 256, 0x1_0000, 256);
      Shifted(i, 0x1_0000, 0x1_0000);
      Shifted(i / 0x1_0000, 256, 256);
      Shifted(i, 256, 0x100_0000);
      Shifted(i / 0x100_0000, 1, 256);
    }
  }

  // ---------------------------------------------------------------- fields

  datatype Field = Num(width: nat, number: int) | Text(text: Option<seq<Byte>>)

  ghost predicate Fits(f: Field) {
    match f
    case Num(width, number) => width > 0 && 0 <= number < Power256(width)
    case Text(text) => text.Some? ==> |text.value| < NULL_LENGTH
  }

  ghost predicate AllFit(fields: seq<Field>) {
    forall k :: 0 <= k < |fields| ==> Fits(fields[k])
  }

  /** The same kinds of fields, which is what the class of an object fixes. */
  ghost predicate SameKind(f: Field, g: Field) {
    match f
    case Num(width, _) => g.Num? && g.width == width
    case Text(_) => g.Text?
  }

  ghost predicate SameKinds(a: seq<Field>, b: seq<Field>) {
    |a| == |b| && forall k :: 0 <= k < |a| ==> SameKind(a[k], b[k])
  }

  function TextBytes(text: Option<seq<Byte>>): seq<Byte>
    requires text.Some? ==> |text.value| < NULL_LENGTH
  {
    match text
    case None => Bytes(2, NULL_LENGTH)
    case Some(s) => Bytes(2, |s|) + s
  }

  ghost function FieldBytes(f: Field): seq<Byte>
    requires Fits(f)
  {
    match f
    case Num(width, number) => Bytes(width, number)
    case Text(text) => TextBytes(text)
  }

  lemma SmallField(n: nat)
    requires n < 256
    ensures FieldBytes(Num(1, n)) == [n]
  {
    assert Power256(1) == 256;
    OneByte(n);
  }

  lemma SignedField(i: int)
    requires -0x8000_0000 <= i < 0x8000_0000
    ensures Fits(Num(4, Unsigned(i)))
    ensures FieldBytes(Num(4, Unsigned(i))) == [i % 256, i / 256 % 256, i / 0x1_0000 % 256, i / 0x100_0000 % 256]
  {
    assert Power256(3) == 0x100_0000;
    SignedBytes(i);
  }

  ghost function FieldsBytes(fields: seq<Field>): seq<Byte>
    requires AllFit(fields)
  {
    if fields == [] then [] else FieldBytes(fields[0]) + FieldsBytes(fields[1..])
  }

  lemma UnrollField(fields: seq<Field>, k: nat)
    requires AllFit(fields) && k < |fields|
    ensures FieldsBytes(fields[k..]) == FieldBytes(fields[k]) + FieldsBytes(fields[k + 1..])
    ensures FieldsBytes(fields[|fields|..]) == []
  {
    hide FieldBytes;
    assert fields[k..][1..] == fields[k + 1..];
  }

  /** An object: the mark of a present object, then its fields. */
  ghost function ObjectBytes(fields: seq<Field>): seq<Byte>
    requires AllFit(fields)
  {
    [0] + FieldsBytes(fields)
  }

  // ---------------------------------------------------------------- reading

  datatype Read<T> = Read(ok: bool, value: T, at: Cursor)

  function Slice(m: Memory, p: nat, n: nat): (s: seq<Byte>)
    ensures |s| == n
  {
    seq(n, k requires 0 <= k => m(p + k))
  }

  /** Reading one field over an old value, which stays when the count runs out. */
  function ReadField(m: Memory, c: Cursor, old_: Field): Read<Field> {
    match old_
    case Num(width, _) =>
      var after := c.count - width;
      if after < 0 then Read(false, old_, Cursor(c.buf, after))
      else Read(true, Num(width, Number(m, c.buf, width)), Cursor(c.buf + width, after))
    case Text(_) =>
      var after := c.count - 2;
      if after < 0 then Read(false, old_, Cursor(c.buf, after))
      else
        var len := Number(m, c.buf, 2);
        if len == NULL_LENGTH then Read(true, Text(None), Cursor(c.buf + 2, after))
        else if len == 0 then Read(true, Text(Some([])), Cursor(c.buf + 2, after))
        else if after - len < 0 then Read(false, old_, Cursor(c.buf + 2, after - len))
        else Read(true, Text(Some(Slice(m, c.buf + 2, len))), Cursor(c.buf + 2 + len, after - len))
  }

  /** Reading the fields from the k-th on, each over its old value. */
  function ReadFields(m: Memory, c: Cursor, fields: seq<Field>, k: nat): (r: Read<seq<Field>>)
    requires k <= |fields|
    ensures |r.value| == |fields|
    decreases |fields| - k
  {
    if k == |fields| then Read(true, fields, c)
    else
      var r := ReadField(m, c, fields[k]);
      if r.ok then ReadFields(m, r.at, fields[k := r.value], k + 1) else Read(false, fields, r.at)
  }

  /** Deserialize of a class whose fields are all numbers and texts. */
  function ReadObject(m: Memory, c: Cursor, fields: seq<Field>): (r: Read<seq<Field>>)
    ensures |r.value| == |fields|
  {
    if c.count - 1 < 0 then Read(false, fields, Cursor(c.buf, c.count - 1))
    else if m(c.buf) != 0 then Read(false, fields, Cursor(c.buf + 1, c.count - 1))
    else ReadFields(m, Cursor(c.buf + 1, c.count - 1), fields, 0)
  }

  // ---------------------------------------------------------------- one field

  /** What is read is what the consumed bytes spell; the count goes down by as many, and a
      failure leaves it negative. */
  lemma ReadFieldSpells(m: Memory, c: Cursor, old_: Field)
    requires old_.Num? ==> old_.width > 0
    ensures var r := ReadField(m, c, old_);
            && SameKind(old_, r.value)
            && (r.ok ==>
                  Fits(r.value) && Placed(m, c.buf, FieldBytes(r.value)) && r.at.count >= 0
                  && r.at == Cursor(c.buf + |FieldBytes(r.value)|, c.count - |FieldBytes(r.value)|))
            && (!r.ok ==> r.at.count < 0 && r.value == old_)
  {
    hide Number, Placed, Bytes, Power256, Slice;
    var r := ReadField(m, c, old_);
    if r.ok {
      match r.value
      case Num(width, number) =>
        NumberBelow(m, c.buf, width);
        NumberIsBytes(m, c.buf, width, number);
      case Text(text) =>
        TextLengthBound();
        NumberBelow(m, c.buf, 2);
        TextSpells(m, c.buf, text);
    }
  }

  lemma TextLengthBound()
    ensures Power256(2) == 0x1_0000
  {
    assert Power256(1) == 256;
  }

  /** A text at an address, and only that text, has its length and bytes there. */
  lemma TextSpells(m: Memory, p: nat, text: Option<seq<Byte>>)
    requires text.Some? ==> |text.value| < NULL_LENGTH
    ensures Placed(m, p, TextBytes(text)) <==>
              (text.None? && Number(m, p, 2) == NULL_LENGTH)
              || (text.Some? && Number(m, p, 2) == |text.value| && text.value == Slice(m, p + 2, |text.value|))
  {
    hide Number, Bytes, Power256;
    TextLengthBound();
    match text
    case None => NumberIsBytes(m, p, 2, NULL_LENGTH);
    case Some(s) =>
      NumberIsBytes(m, p, 2, |s|);
      PlacedConcat(m, p, Bytes(2, |s|), s);
      assert Placed(m, p + 2, s) <==> s == Slice(m, p + 2, |s|);
  }

  /** A field that stands in memory is read back, whatever the object held before, exactly when
      the count covers its bytes. */
  lemma FieldReadsBack(m: Memory, c: Cursor, f: Field, old_: Field)
    requires Fits(f) && SameKind(f, old_) && Placed(m, c.buf, FieldBytes(f))
    ensures var n := |FieldBytes(f)|;
            && (c.count >= n ==> ReadField(m, c, old_) == Read(true, f, Cursor(c.buf + n, c.count - n)))
            && (c.count < n ==> !ReadField(m, c, old_).ok)
  {
    hide Number, Placed, Bytes, Power256, Slice;
    match f
    case Num(width, number) => NumberIsBytes(m, c.buf, width, number);
    case Text(text) =>
      TextSpells(m, c.buf, text);
      assert text.Some? && text.value == [] ==> Slice(m, c.buf + 2, 0) == [];
  }

  // ---------------------------------------------------------------- objects

  lemma {:induction false} FieldsReadBack(m: Memory, c: Cursor, fields: seq<Field>, old_: seq<Field>, k: nat)
    requires AllFit(fields) && SameKinds(fields, old_) && k <= |fields| && c.count >= 0
    requires forall i :: 0 <= i < k ==> old_[i] == fields[i]
    requires Placed(m, c.buf, FieldsBytes(fields[k..]))
    ensures var n := |FieldsBytes(fields[k..])|;
            && (c.count >= n ==> ReadFields(m, c, old_, k) == Read(true, fields, Cursor(c.buf + n, c.count - n)))
            && (c.count < n ==> !ReadFields(m, c, old_, k).ok)
    decreases |fields| - k
  {
    hide FieldBytes, ReadField, Placed;
    if k == |fields| {
      assert old_ == fields;
    } else {
      var f, rest := fields[k], fields[k..][1..];
      assert rest == fields[k + 1..];
      PlacedConcat(m, c.buf, FieldBytes(f), FieldsBytes(rest));
      FieldReadsBack(m, c, f, old_[k]);
      var r := ReadField(m, c, old_[k]);
      if r.ok {
        FieldsReadBack(m, r.at, fields, old_[k := f], k + 1);
      }
    }
  }

  /** Deserialize inverts Serialize, whatever bytes follow and whatever the object held, exactly
      when the count covers the object. */
  lemma ObjectReadsBack(m: Memory, c: Cursor, fields: seq<Field>, old_: seq<Field>)
    requires AllFit(fields) && SameKinds(fields, old_)
    requires Placed(m, c.buf, ObjectBytes(fields))
    ensures var n := |ObjectBytes(fields)|;
            && (c.count >= n ==> ReadObject(m, c, old_) == Read(true, fields, Cursor(c.buf + n, c.count - n)))
            && (c.count < n ==> !ReadObject(m, c, old_).ok)
  {
    hide FieldsBytes, ReadFields;
    PlacedConcat(m, c.buf, [0], FieldsBytes(fields));
    assert m(c.buf + 0) == [0][0];
    assert fields[0..] == fields;
    if c.count >= 1 {
      FieldsReadBack(m, Cursor(c.buf + 1, c.count - 1), fields, old_, 0);
    }
  }

  ghost predicate Readable(fields: seq<Field>) {
    forall k :: 0 <= k < |fields| && fields[k].Num? ==> fields[k].width > 0
  }

  lemma {:induction false} FieldsSpell(m: Memory, c: Cursor, old_: seq<Field>, k: nat)
    requires Readable(old_) && k <= |old_|
    ensures var r := ReadFields(m, c, old_, k);
            && SameKinds(old_, r.value)
            && (forall i :: 0 <= i < k ==> r.value[i] == old_[i])
            && (!r.ok ==> r.at.count < 0)
            && (r.ok ==>
                  AllFit(r.value[k..]) && Placed(m, c.buf, FieldsBytes(r.value[k..]))
                  && r.at == Cursor(c.buf + |FieldsBytes(r.value[k..])|, c.count - |FieldsBytes(r.value[k..])|))
    decreases |old_| - k
  {
    hide FieldBytes, ReadField, Placed, Fits;
    if k < |old_| {
      var f := ReadField(m, c, old_[k]);
      ReadFieldSpells(m, c, old_[k]);
      if f.ok {
        FieldsSpell(m, f.at, old_[k := f.value], k + 1);
        var r := ReadFields(m, c, old_, k);
        if r.ok {
          assert r.value[k..][1..] == r.value[k + 1..];
          PlacedConcat(m, c.buf, FieldBytes(f.value), FieldsBytes(r.value[k + 1..]));
        }
      }
    } else {
      PlacedNothing(m, c.buf);
    }
  }

  /** A successful Deserialize consumed exactly the bytes that Serialize would now write. */
  lemma ObjectSpells(m: Memory, c: Cursor, old_: seq<Field>)
    requires Readable(old_)
    ensures var r := ReadObject(m, c, old_);
            && SameKinds(old_, r.value)
            && (!r.ok && m(c.buf) == 0 ==> r.at.count < 0)
            && (r.ok ==>
                  AllFit(r.value) && Placed(m, c.buf, ObjectBytes(r.value)) && c.count >= |ObjectBytes(r.value)|
                  && r.at == Cursor(c.buf + |ObjectBytes(r.value)|, c.count - |ObjectBytes(r.value)|))
  {
    hide FieldsBytes, ReadFields, Fits;
    var r := ReadObject(m, c, old_);
    if c.count >= 1 && m(c.buf) == 0 {
      FieldsSpell(m, Cursor(c.buf + 1, c.count - 1), old_, 0);
      if r.ok {
        assert r.value[0..] == r.value;
        PlacedConcat(m, c.buf, [0], FieldsBytes(r.value));
        assert Placed(m, c.buf, [0]);
      }
      FieldsReach(m, Cursor(c.buf + 1, c.count - 1), old_, 0);
    }
  }

  lemma {:induction false} FieldsIgnoreOld(m: Memory, c: Cursor, a: seq<Field>, b: seq<Field>, k: nat)
    requires SameKinds(a, b) && k <= |a| && forall i :: 0 <= i < k ==> a[i] == b[i]
    ensures var (r, s) := (ReadFields(m, c, a, k), ReadFields(m, c, b, k));
            r.ok == s.ok && r.at == s.at && (r.ok ==> r.value == s.value)
    decreases |a| - k
  {
    if k == |a| {
      assert a == b;
    } else {
      var f, g := ReadField(m, c, a[k]), ReadField(m, c, b[k]);
      assert f.ok == g.ok && f.at == g.at && (f.ok ==> f.value == g.value);
      hide ReadField;
      if f.ok {
        FieldsIgnoreOld(m, f.at, a[k := f.value], b[k := g.value], k + 1);
      }
    }
  }

  /** What a successful Deserialize leaves does not depend on what the object held before;
      nor do success and the cursor. */
  lemma ObjectIgnoresOld(m: Memory, c: Cursor, a: seq<Field>, b: seq<Field>)
    requires SameKinds(a, b)
    ensures var (r, s) := (ReadObject(m, c, a), ReadObject(m, c, b));
            r.ok == s.ok && r.at == s.at && (r.ok ==> r.value == s.value)
  {
    hide ReadFields;
    FieldsIgnoreOld(m, Cursor(c.buf + 1, c.count - 1), a, b, 0);
  }

  // ---------------------------------------------------------------- what reading depends on

  /** The two memories hold the same bytes at the addresses from `from` up to `to`. */
  ghost predicate Agree(m: Memory, n: Memory, from: int, to: int) {
    forall p: nat :: from <= p < to ==> m(p) == n(p)
  }

  lemma {:induction false} NumberInside(m: Memory, n: Memory, p: nat, width: nat)
    requires Agree(m, n, p, p + width)
    ensures Number(m, p, width) == Number(n, p, width)
    decreases width
  {
    if width > 0 {
      NumberInside(m, n, p + 1, width - 1);
    }
  }

  /** Where the cursor goes: forward, within the count, and on success as far as the count goes
      down. */
  lemma FieldReach(m: Memory, c: Cursor, old_: Field)
    ensures var at := ReadField(m, c, old_).at;
            && at.buf >= c.buf && (c.count >= 0 ==> at.buf <= c.buf + c.count)
            && if ReadField(m, c, old_).ok then at.count >= 0 && at.buf + at.count == c.buf + c.count
               else at.count < 0
  {
    hide Number;
  }

  lemma {:induction false} FieldsReach(m: Memory, c: Cursor, old_: seq<Field>, k: nat)
    requires k <= |old_| && c.count >= 0
    ensures var at := ReadFields(m, c, old_, k).at;
            && c.buf <= at.buf <= c.buf + c.count
            && if ReadFields(m, c, old_, k).ok then at.count >= 0 && at.buf + at.count == c.buf + c.count
               else at.count < 0
    decreases |old_| - k
  {
    hide ReadField;
    if k < |old_| {
      var f := ReadField(m, c, old_[k]);
      FieldReach(m, c, old_[k]);
      if f.ok {
        FieldsReach(m, f.at, old_[k := f.value], k + 1);
      }
    }
  }

  /** An object is read within the count. */
  lemma ObjectReach(m: Memory, c: Cursor, old_: seq<Field>)
    ensures var at := ReadObject(m, c, old_).at;
            && at.buf >= c.buf && (if c.count >= 0 then at.buf <= c.buf + c.count else at.buf == c.buf)
            && (ReadObject(m, c, old_).ok ==> at.count >= 0 && at.buf + at.count == c.buf + c.count)
            && (!ReadObject(m, c, old_).ok && m(c.buf) == 0 ==> at.count < 0)
  {
    hide ReadFields;
    if c.count >= 1 {
      FieldsReach(m, Cursor(c.buf + 1, c.count - 1), old_, 0);
    }
  }

  lemma FieldReadsPassed(m: Memory, n: Memory, c: Cursor, old_: Field)
    requires Agree(m, n, c.buf, ReadField(m, c, old_).at.buf)
    ensures ReadField(m, c, old_) == ReadField(n, c, old_)
  {
    hide Number;
    if old_.Num? {
      if old_.width <= c.count {
        NumberInside(m, n, c.buf, old_.width);
      }
    } else if 2 <= c.count {
      NumberInside(m, n, c.buf, 2);
      var len := Number(m, c.buf, 2);
      if len <= c.count - 2 && len != NULL_LENGTH {
        assert Slice(m, c.buf + 2, len) == Slice(n, c.buf + 2, len);
      }
    }
  }

  lemma {:induction false} FieldsReadPassed(m: Memory, n: Memory, c: Cursor, old_: seq<Field>, k: nat)
    requires k <= |old_| && c.count >= 0 && Agree(m, n, c.buf, ReadFields(m, c, old_, k).at.buf)
    ensures ReadFields(m, c, old_, k) == ReadFields(n, c, old_, k)
    decreases |old_| - k
  {
    hide ReadField;
    if k < |old_| {
      FieldReach(m, c, old_[k]);
      var f := ReadField(m, c, old_[k]);
      if f.ok {
        FieldsReach(m, f.at, old_[k := f.value], k + 1);
        FieldsReadPassed(m, n, f.at, old_[k := f.value], k + 1);
      }
      FieldReadsPassed(m, n, c, old_[k]);
    }
  }

  /** Only the bytes that the cursor passes are read. */
  lemma ObjectReadsPassed(m: Memory, n: Memory, c: Cursor, old_: seq<Field>)
    requires Agree(m, n, c.buf, ReadObject(m, c, old_).at.buf)
    ensures ReadObject(m, c, old_) == ReadObject(n, c, old_)
  {
    hide ReadFields;
    if c.count >= 1 {
      FieldsReach(m, Cursor(c.buf + 1, c.count - 1), old_, 0);
      if m(c.buf) == 0 {
        FieldsReadPassed(m, n, Cursor(c.buf + 1, c.count - 1), old_, 0);
      }
    }
  }

  /** Only bytes that the count covers are read: the bytes beyond make no difference. */
  lemma ObjectReadsInside(m: Memory, n: Memory, c: Cursor, old_: seq<Field>)
    requires Agree(m, n, c.buf, c.buf + c.count)
    ensures ReadObject(m, c, old_) == ReadObject(n, c, old_)
  {
    hide ReadObject;
    ObjectReach(m, c, old_);
    ObjectReadsPassed(m, n, c, old_);
  }

  // ---------------------------------------------------------------- any bytes are an object

  lemma FieldIsThere(m: Memory, p: nat, kind: Field) returns (f: Field)
    requires kind.Num? ==> kind.width > 0
    ensures Fits(f) && SameKind(f, kind) && Placed(m, p, FieldBytes(f))
  {
    hide Number, Power256;
    var c := Cursor(p, if kind.Num? then kind.width else 0x2_0000);
    TextLengthBound();
    NumberBelow(m, p, 2);
    ReadFieldSpells(m, c, kind);
    f := ReadField(m, c, kind).value;
  }

  lemma {:induction false} FieldsAreThere(m: Memory, p: nat, kinds: seq<Field>) returns (fields: seq<Field>)
    requires Readable(kinds)
    ensures AllFit(fields) && SameKinds(fields, kinds) && Placed(m, p, FieldsBytes(fields))
    decreases |kinds|
  {
    hide FieldBytes, Fits, Placed;
    if kinds == [] {
      fields := [];
      PlacedNothing(m, p);
    } else {
      var f := FieldIsThere(m, p, kinds[0]);
      var rest := FieldsAreThere(m, p + |FieldBytes(f)|, kinds[1..]);
      fields := [f] + rest;
      assert fields[1..] == rest;
      PlacedConcat(m, p, FieldBytes(f), FieldsBytes(rest));
    }
  }

  /** Behind a zero byte there is always an object of the given kinds. */
  lemma ObjectIsThere(m: Memory, p: nat, kinds: seq<Field>) returns (fields: seq<Field>)
    requires Readable(kinds) && m(p) == 0
    ensures AllFit(fields) && SameKinds(fields, kinds) && Placed(m, p, ObjectBytes(fields))
  {
    fields := FieldsAreThere(m, p + 1, kinds);
    PlacedConcat(m, p, [0], FieldsBytes(fields));
    assert Placed(m, p, [0]);
  }

  // ---------------------------------------------------------------- bytes passed and bytes counted

  /** How many more bytes the cursor has passed than the count has gone down. */
  ghost function Gap(c: Cursor, at: Cursor): int {
    (at.buf - c.buf) - (c.count - at.count)
  }

  lemma FieldGap(m: Memory, c: Cursor, old_: Field)
    requires old_.Num? ==> old_.width > 0
    ensures var r := ReadField(m, c, old_);
            r.at.buf >= c.buf && (if r.ok then Gap(c, r.at) == 0 else Gap(c, r.at) < 0)
  {
    hide Number;
  }

  lemma {:induction false} FieldsGap(m: Memory, c: Cursor, old_: seq<Field>, k: nat)
    requires Readable(old_) && k <= |old_|
    ensures var r := ReadFields(m, c, old_, k);
            r.at.buf >= c.buf && (if r.ok then Gap(c, r.at) == 0 else Gap(c, r.at) < 0)
    decreases |old_| - k
  {
    hide ReadField;
    if k < |old_| {
      var f := ReadField(m, c, old_[k]);
      FieldGap(m, c, old_[k]);
      ReadFieldSpells(m, c, old_[k]);
      if f.ok {
        FieldsGap(m, f.at, old_[k := f.value], k + 1);
      }
    }
  }

  /** Reading a present object passes exactly the bytes it counts, and fewer when it fails. */
  lemma ObjectGap(m: Memory, c: Cursor, old_: seq<Field>)
    requires Readable(old_)
    ensures var r := ReadObject(m, c, old_);
            && r.at.buf >= c.buf && Gap(c, r.at) <= 0
            && (r.ok ==> Gap(c, r.at) == 0)
            && (!r.ok && m(c.buf) == 0 ==> Gap(c, r.at) < 0)
  {
    hide ReadFields;
    FieldsGap(m, Cursor(c.buf + 1, c.count - 1), old_, 0);
  }
}

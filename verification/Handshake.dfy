/** The handshake messages of stage/stage/model/AuthenticationAAA.h. */
module Handshake {
  import opened Common
  import opened Codec
  import opened Texts

  class AuthenticationAAARequest {
    var svrAreaNo: nat
    var serverNo: nat
    var platform: CText
    var linkType: nat
    var maxFD: nat

    ghost predicate Valid()
      reads this
    {
      && svrAreaNo < 0x1_0000
      && serverNo < 0x1_0000
      && WellFormed(platform)
      && linkType < 256
      && maxFD < 0x1_0000
    }

    /** The object as its fields in the order of the wire. */
    ghost function View(): seq<Field>
      requires Valid()
      reads this
    {
      [Num(2, svrAreaNo), Num(2, serverNo), Text(TextOf(platform)), Num(1, linkType),
       Num(2, maxFD)]
    }

    constructor ()
      ensures Valid() && View() == [Num(2, 0), Num(2, 0), Text(None), Num(1, 0), Num(2, 0)]
    {
      svrAreaNo, serverNo, platform, linkType, maxFD := 0, 0, NULL_TEXT, 0, 0;
    }

    method SetPlatform(s: Option<seq<Byte>>, len: nat)
      requires Valid() && Settable(s, len)
      modifies this
      ensures Valid() && View()[2].Text? && Sets(s, len, View()[2].text)
      ensures View() == old(View())[2 := View()[2]]
    {
      platform := Replace(platform, s, len);
    }

    /** Where each field comes from: numbers lowest byte first, the text behind its length. */
    method Deserialize(m: Memory, from: nat, limit: int) returns (ok: bool, buf: nat, count: int)
      requires Valid()
      modifies this
      ensures Valid()
      ensures ReadObject(m, Cursor(from, limit), old(View())) == Read(ok, View(), Cursor(buf, count))
      ensures ok ==>
                var n := from + 5 + TextSize(platform);
                && m(from) == 0 && svrAreaNo == m(from + 1) + 256 * m(from + 2)
                && serverNo == m(from + 3) + 256 * m(from + 4) && TextAt(m, from + 5, platform)
                && linkType == m(n) && maxFD == m(n + 1) + 256 * m(n + 2) && buf == n + 3
    {
      hide ReadObject, ObjectBytes, Placed, TextAt;
      ghost var before := View();
      ok, buf, count := DeserializeFields(m, from, limit);
      if ok {
        ObjectSpells(m, Cursor(from, limit), before);
        RequestPlaced(m, from, this);
      }
    }

    method DeserializeFields(m: Memory, from: nat, limit: int) returns (ok: bool, buf: nat, count: int)
      requires Valid()
      modifies this
      ensures Valid()
      ensures ReadObject(m, Cursor(from, limit), old(View())) == Read(ok, View(), Cursor(buf, count))
    {
      hide ReadField, Number, Power256, Slice, WellFormed, TextOf;
      Widths();
      ghost var whole := ReadObject(m, Cursor(from, limit), View());
      buf, count := from, limit - 1;
      if count < 0 {
        return false, buf, count;
      }
      var mark := m(buf);
      buf := buf + 1;
      if mark != 0 {
        return false, buf, count;
      }
      var number: nat;
      var text: CText;
      ghost var before := View();
      assert whole == ReadFields(m, Cursor(buf, count), View(), 0);
      ok, number, buf, count := ReadNumber(m, buf, count, 2);
      if !ok {
        return;
      }
      before := View();
      svrAreaNo := number;
      assert View() == before[0 := Num(2, number)];
      assert whole == ReadFields(m, Cursor(buf, count), View(), 1);
      ok, number, buf, count := ReadNumber(m, buf, count, 2);
      if !ok {
        return;
      }
      before := View();
      serverNo := number;
      assert View() == before[1 := Num(2, number)];
      assert whole == ReadFields(m, Cursor(buf, count), View(), 2);
      ok, text, buf, count := ReadText(m, buf, count, platform);
      if !ok {
        return;
      }
      before := View();
      platform := text;
      assert View() == before[2 := Text(TextOf(text))];
      assert whole == ReadFields(m, Cursor(buf, count), View(), 3);
      ok, number, buf, count := ReadNumber(m, buf, count, 1);
      if !ok {
        return;
      }
      before := View();
      linkType := number;
      assert View() == before[3 := Num(1, number)];
      assert whole == ReadFields(m, Cursor(buf, count), View(), 4);
      ok, number, buf, count := ReadNumber(m, buf, count, 2);
      if !ok {
        return;
      }
      before := View();
      maxFD := number;
      assert View() == before[4 := Num(2, number)];
      assert whole == ReadFields(m, Cursor(buf, count), View(), 5);
    }

    method Serialize(s: Stream)
      requires Valid()
      modifies s
      ensures AllFit(View()) && s.bytes == old(s.bytes) + ObjectBytes(View())
      ensures s.bytes ==
              old(s.bytes)
              + ([0, svrAreaNo % 256, svrAreaNo / 256, serverNo % 256, serverNo / 256]
                 + ([platform.len % 256, platform.len / 256] + CharsOf(platform))
                 + [linkType, maxFD % 256, maxFD / 256])
    {
      hide Power256, Bytes, WellFormed, TextOf, TextBytes, FieldsBytes, CharsOf;
      RequestWire(this);
      Widths();
      ghost var fields := View();
      ghost var whole := s.bytes + ObjectBytes(fields);
      WritesFields(s.bytes, fields);
      s.Put(0);
      WroteField(s.bytes, fields, 0, whole);
      s.Write(Bytes(2, svrAreaNo));
      WroteField(s.bytes, fields, 1, whole);
      s.Write(Bytes(2, serverNo));
      WroteField(s.bytes, fields, 2, whole);
      s.WriteText(platform);
      WroteField(s.bytes, fields, 3, whole);
      s.PutNumber(linkType);
      WroteField(s.bytes, fields, 4, whole);
      s.Write(Bytes(2, maxFD));
      WroteFields(s.bytes, fields, whole);
    }
  }

  class AuthenticationAAAResponse {
    var code: nat
    var subtract: nat
    var modVt: nat
    var key: CText
    var linkNo: nat
    var linkType: nat

    ghost predicate Valid()
      reads this
    {
      && code < 0x1_0000
      && subtract < 256
      && modVt < 256
      && WellFormed(key)
      && linkNo < 0x1_0000_0000
      && linkType < 256
    }

    /** The object as its fields in the order of the wire. */
    ghost function View(): seq<Field>
      requires Valid()
      reads this
    {
      [Num(2, code), Num(1, subtract), Num(1, modVt), Text(TextOf(key)),
       Num(4, linkNo), Num(1, linkType)]
    }

    constructor ()
      ensures Valid() && View() == [Num(2, 0), Num(1, 0), Num(1, 0), Text(None), Num(4, 0), Num(1, 0)]
    {
      code, subtract, modVt, key, linkNo := 0, 0, 0, NULL_TEXT, 0;
      linkType := 0;
    }

    method SetKey(s: Option<seq<Byte>>, len: nat)
      requires Valid() && Settable(s, len)
      modifies this
      ensures Valid() && View()[3].Text? && Sets(s, len, View()[3].text)
      ensures View() == old(View())[3 := View()[3]]
    {
      key := Replace(key, s, len);
    }

    /** Where each field comes from. */
    method Deserialize(m: Memory, from: nat, limit: int) returns (ok: bool, buf: nat, count: int)
      requires Valid()
      modifies this
      ensures Valid()
      ensures ReadObject(m, Cursor(from, limit), old(View())) == Read(ok, View(), Cursor(buf, count))
      ensures ok ==>
                var n := from + 5 + TextSize(key);
                && m(from) == 0 && code == m(from + 1) + 256 * m(from + 2)
                && subtract == m(from + 3) && modVt == m(from + 4) && TextAt(m, from + 5, key)
                && linkNo == m(n) + 256 * m(n + 1) + 0x1_0000 * m(n + 2) + 0x100_0000 * m(n + 3)
                && linkType == m(n + 4) && buf == n + 5
    {
      hide ReadObject, ObjectBytes, Placed, TextAt;
      ghost var before := View();
      ok, buf, count := DeserializeFields(m, from, limit);
      if ok {
        ObjectSpells(m, Cursor(from, limit), before);
        ResponsePlaced(m, from, this);
      }
    }

    method DeserializeFields(m: Memory, from: nat, limit: int) returns (ok: bool, buf: nat, count: int)
      requires Valid()
      modifies this
      ensures Valid()
      ensures ReadObject(m, Cursor(from, limit), old(View())) == Read(ok, View(), Cursor(buf, count))
    {
      hide ReadField, Number, Power256, Slice, WellFormed, TextOf;
      Widths();
      ghost var whole := ReadObject(m, Cursor(from, limit), View());
      buf, count := from, limit - 1;
      if count < 0 {
        return false, buf, count;
      }
      var mark := m(buf);
      buf := buf + 1;
      if mark != 0 {
        return false, buf, count;
      }
      var number: nat;
      var text: CText;
      ghost var before := View();
      assert whole == ReadFields(m, Cursor(buf, count), View(), 0);
      ok, number, buf, count := ReadNumber(m, buf, count, 2);
      if !ok {
        return;
      }
      before := View();
      code := number;
      assert View() == before[0 := Num(2, number)];
      assert whole == ReadFields(m, Cursor(buf, count), View(), 1);
      ok, number, buf, count := ReadNumber(m, buf, count, 1);
      if !ok {
        return;
      }
      before := View();
      subtract := number;
      assert View() == before[1 := Num(1, number)];
      assert whole == ReadFields(m, Cursor(buf, count), View(), 2);
      ok, number, buf, count := ReadNumber(m, buf, count, 1);
      if !ok {
        return;
      }
      before := View();
      modVt := number;
      assert View() == before[2 := Num(1, number)];
      assert whole == ReadFields(m, Cursor(buf, count), View(), 3);
      ok, text, buf, count := ReadText(m, buf, count, key);
      if !ok {
        return;
      }
      before := View();
      key := text;
      assert View() == before[3 := Text(TextOf(text))];
      assert whole == ReadFields(m, Cursor(buf, count), View(), 4);
      ok, number, buf, count := ReadNumber(m, buf, count, 4);
      if !ok {
        return;
      }
      before := View();
      linkNo := number;
      assert View() == before[4 := Num(4, number)];
      assert whole == ReadFields(m, Cursor(buf, count), View(), 5);
      ok, number, buf, count := ReadNumber(m, buf, count, 1);
      if !ok {
        return;
      }
      before := View();
      linkType := number;
      assert View() == before[5 := Num(1, number)];
      assert whole == ReadFields(m, Cursor(buf, count), View(), 6);
    }

    method Serialize(s: Stream)
      requires Valid()
      modifies s
      ensures AllFit(View()) && s.bytes == old(s.bytes) + ObjectBytes(View())
      ensures s.bytes ==
              old(s.bytes)
              + ([0, code % 256, code / 256, subtract, modVt]
                 + ([key.len % 256, key.len / 256] + CharsOf(key))
                 + [linkNo % 256, linkNo / 256 % 256, linkNo / 0x1_0000 % 256, linkNo / 0x100_0000 % 256, linkType])
    {
      hide Power256, Bytes, WellFormed, TextOf, TextBytes, FieldsBytes, CharsOf;
      ResponseWire(this);
      Widths();
      ghost var fields := View();
      ghost var whole := s.bytes + ObjectBytes(fields);
      WritesFields(s.bytes, fields);
      s.Put(0);
      WroteField(s.bytes, fields, 0, whole);
      s.Write(Bytes(2, code));
      WroteField(s.bytes, fields, 1, whole);
      s.PutNumber(subtract);
      WroteField(s.bytes, fields, 2, whole);
      s.PutNumber(modVt);
      WroteField(s.bytes, fields, 3, whole);
      s.WriteText(key);
      WroteField(s.bytes, fields, 4, whole);
      s.Write(Bytes(4, linkNo));
      WroteField(s.bytes, fields, 5, whole);
      s.PutNumber(linkType);
      WroteFields(s.bytes, fields, whole);
    }
  }

  // ---------------------------------------------------------------- the wire, byte by byte

  lemma RequestWire(r: AuthenticationAAARequest)
    requires r.Valid()
    ensures AllFit(r.View())
    ensures ObjectBytes(r.View()) ==
            [0, r.svrAreaNo % 256, r.svrAreaNo / 256, r.serverNo % 256, r.serverNo / 256]
            + ([r.platform.len % 256, r.platform.len / 256] + CharsOf(r.platform))
            + [r.linkType, r.maxFD % 256, r.maxFD / 256]
  {
    hide Power256, Bytes, WellFormed, TextOf, TextBytes, FieldsBytes, CharsOf;
    Widths();
    var f := r.View();
    assert f[0..] == f;
    UnrollField(f, 0);
    UnrollField(f, 1);
    UnrollField(f, 2);
    UnrollField(f, 3);
    UnrollField(f, 4);
    TwoBytes(r.svrAreaNo);
    TwoBytes(r.serverNo);
    TextWire(r.platform);
    OneByte(r.linkType);
    TwoBytes(r.maxFD);
    RequestJoined(FieldBytes(f[0]), FieldBytes(f[1]), FieldBytes(f[2]), FieldBytes(f[3]), FieldBytes(f[4]));
  }

  lemma ResponseWire(r: AuthenticationAAAResponse)
    requires r.Valid()
    ensures AllFit(r.View())
    ensures ObjectBytes(r.View()) ==
            [0, r.code % 256, r.code / 256, r.subtract, r.modVt]
            + ([r.key.len % 256, r.key.len / 256] + CharsOf(r.key))
            + [r.linkNo % 256, r.linkNo / 256 % 256, r.linkNo / 0x1_0000 % 256, r.linkNo / 0x100_0000 % 256, r.linkType]
  {
    hide Power256, Bytes, WellFormed, TextOf, TextBytes, FieldsBytes, CharsOf;
    Widths();
    var f := r.View();
    assert f[0..] == f;
    UnrollField(f, 0);
    UnrollField(f, 1);
    UnrollField(f, 2);
    UnrollField(f, 3);
    UnrollField(f, 4);
    UnrollField(f, 5);
    TwoBytes(r.code);
    OneByte(r.subtract);
    OneByte(r.modVt);
    TextWire(r.key);
    FourBytes(r.linkNo);
    OneByte(r.linkType);
    ResponseJoined(FieldBytes(f[0]), FieldBytes(f[1]), FieldBytes(f[2]), FieldBytes(f[3]), FieldBytes(f[4]),
      FieldBytes(f[5]));
  }

  lemma ResponseJoined(a: seq<Byte>, b: seq<Byte>, c: seq<Byte>, d: seq<Byte>, e: seq<Byte>, f: seq<Byte>)
    requires |a| == 2 && |b| == |c| == |f| == 1 && |e| == 4
    ensures [0] + (a + (b + (c + (d + (e + (f + [])))))) ==
            [0, a[0], a[1], b[0], c[0]] + d + [e[0], e[1], e[2], e[3], f[0]]
  {
  }

  lemma ResponsePlaced(m: Memory, from: nat, r: AuthenticationAAAResponse)
    requires r.Valid() && AllFit(r.View()) && Placed(m, from, ObjectBytes(r.View()))
    ensures var n := from + 5 + TextSize(r.key);
            && m(from) == 0 && r.code == m(from + 1) + 256 * m(from + 2)
            && r.subtract == m(from + 3) && r.modVt == m(from + 4) && TextAt(m, from + 5, r.key)
            && r.linkNo == m(n) + 256 * m(n + 1) + 0x1_0000 * m(n + 2) + 0x100_0000 * m(n + 3)
            && r.linkType == m(n + 4) && from + |ObjectBytes(r.View())| == n + 5
  {
    hide ObjectBytes, Placed, WellFormed, CharsOf, TextAt, AuthenticationAAAResponse.View;
    ResponseWire(r);
    var head: seq<Byte> := [0, r.code % 256, r.code / 256, r.subtract, r.modVt];
    LengthFits(r.key);
    var length: seq<Byte> := [r.key.len % 256, r.key.len / 256];
    var text := length + CharsOf(r.key);
    var tail: seq<Byte> :=
      [r.linkNo % 256, r.linkNo / 256 % 256, r.linkNo / 0x1_0000 % 256, r.linkNo / 0x100_0000 % 256, r.linkType];
    PlacedConcat(m, from, head + text, tail);
    PlacedConcat(m, from, head, text);
    ByteAt(m, from, head, 0);
    NumberAt(m, from, head, 1, r.code);
    ByteAt(m, from, head, 3);
    ByteAt(m, from, head, 4);
    TextPlaced(m, from + 5, r.key);
    QuadAt(m, from + 5 + |text|, tail, 0, r.linkNo);
    ByteAt(m, from + 5 + |text|, tail, 4);
  }

  lemma RequestPlaced(m: Memory, from: nat, r: AuthenticationAAARequest)
    requires r.Valid() && AllFit(r.View()) && Placed(m, from, ObjectBytes(r.View()))
    ensures var n := from + 5 + TextSize(r.platform);
            && m(from) == 0 && r.svrAreaNo == m(from + 1) + 256 * m(from + 2)
            && r.serverNo == m(from + 3) + 256 * m(from + 4) && TextAt(m, from + 5, r.platform)
            && r.linkType == m(n) && r.maxFD == m(n + 1) + 256 * m(n + 2) && from + |ObjectBytes(r.View())| == n + 3
  {
    hide ObjectBytes, Placed, WellFormed, CharsOf, TextAt, AuthenticationAAARequest.View;
    RequestWire(r);
    var head: seq<Byte> := [0, r.svrAreaNo % 256, r.svrAreaNo / 256, r.serverNo % 256, r.serverNo / 256];
    LengthFits(r.platform);
    var length: seq<Byte> := [r.platform.len % 256, r.platform.len / 256];
    var text := length + CharsOf(r.platform);
    var tail: seq<Byte> := [r.linkType, r.maxFD % 256, r.maxFD / 256];
    PlacedConcat(m, from, head + text, tail);
    PlacedConcat(m, from, head, text);
    FirstByte(m, from, head);
    NumberAt(m, from, head, 1, r.svrAreaNo);
    NumberAt(m, from, head, 3, r.serverNo);
    TextPlaced(m, from + 5, r.platform);
    FirstByte(m, from + 5 + |text|, tail);
    NumberAt(m, from + 5 + |text|, tail, 1, r.maxFD);
  }

  lemma RequestJoined(a: seq<Byte>, b: seq<Byte>, c: seq<Byte>, d: seq<Byte>, e: seq<Byte>)
    requires |a| == |b| == |e| == 2 && |d| == 1
    ensures [0] + (a + (b + (c + (d + (e + []))))) == [0, a[0], a[1], b[0], b[1]] + c + [d[0], e[0], e[1]]
  {
  }

  /** A request read from memory and written again gives back the bytes that were read. */
  method Echo(m: Memory, from: nat, limit: int, s: Stream) returns (ok: bool, buf: nat, count: int)
    modifies s
    ensures ok ==> exists sent :: s.bytes == old(s.bytes) + sent && Placed(m, from, sent)
                                  && buf == from + |sent| && count == limit - |sent| >= 0
  {
    hide ObjectBytes, ReadObject, Placed, AuthenticationAAARequest.Valid, AuthenticationAAARequest.View;
    var request := new AuthenticationAAARequest();
    ghost var fresh_ := request.View();
    ok, buf, count := request.Deserialize(m, from, limit);
    if ok {
      ObjectSpells(m, Cursor(from, limit), fresh_);
      request.Serialize(s);
      ghost var sent := ObjectBytes(request.View());
      assert s.bytes == old(s.bytes) + sent && Placed(m, from, sent);
    }
  }

  /** A response written, followed by anything, and read into any other response object
      makes the two objects alike. */
  method Deliver(sent: AuthenticationAAAResponse, rest: seq<Byte>, received: AuthenticationAAAResponse)
    returns (ok: bool, buf: nat, count: int)
    requires sent.Valid() && received.Valid() && sent != received
    modifies received
    ensures ok && sent.Valid() && received.Valid() && received.View() == sent.View() == old(sent.View())
    ensures count == |rest|
  {
    hide ReadObject, AuthenticationAAAResponse.Valid;
    hide ObjectBytes, Placed;
    var written := Written(sent);
    var text := written + rest;
    var m: Memory := (p: nat) => if p < |text| then text[p] else 0;
    SameShape(sent, received);
    PlacedAtStart(m, written, text);
    ObjectReadsBack(m, Cursor(0, |text|), sent.View(), received.View());
    ok, buf, count := received.Deserialize(m, 0, |text|);
  }

  /** The bytes of a response by themselves. */
  method Written(response: AuthenticationAAAResponse) returns (bytes: seq<Byte>)
    requires response.Valid()
    ensures AllFit(response.View()) && bytes == ObjectBytes(response.View())
  {
    hide ObjectBytes;
    var s := new Stream();
    response.Serialize(s);
    bytes := s.bytes;
  }

  lemma PlacedAtStart(m: Memory, s: seq<Byte>, text: seq<Byte>)
    requires s <= text && forall p: nat :: p < |text| ==> m(p) == text[p]
    ensures Placed(m, 0, s)
  {
  }

  lemma SameShape(a: AuthenticationAAAResponse, b: AuthenticationAAAResponse)
    requires a.Valid() && b.Valid()
    ensures SameKinds(a.View(), b.View())
  {
    hide TextOf, WellFormed;
  }
}

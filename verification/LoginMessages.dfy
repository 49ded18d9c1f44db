/** The classes of xiyousdk/proto: LoginAccountResponse with its nested XiYouGameServer
    objects, and the GenericResponse around it. */
module LoginMessages {
  import opened Common
  import opened Codec
  import opened LoginCodec
  import opened Texts
  import T = Text

  class XiYouGameServer {
    var serverName: CText
    var isCommend: nat
    var kind: nat
    var serverId: CText
    var status: nat
    var activeTime: int
    var loginTime: int
    var platform: CText

    ghost predicate Valid()
      reads this
    {
      && WellFormed(serverName)
      && isCommend < 256
      && kind < 256
      && WellFormed(serverId)
      && status < 256
      && -0x8000_0000 <= activeTime < 0x8000_0000
      && -0x8000_0000 <= loginTime < 0x8000_0000
      && WellFormed(platform)
    }

    /** The object as its fields in the order of the wire. */
    ghost function View(): seq<Field>
      requires Valid()
      reads this
    {
      [Text(TextOf(serverName)), Num(1, isCommend), Num(1, kind), Text(TextOf(serverId)),
       Num(1, status), Num(4, Unsigned(activeTime)), Num(4, Unsigned(loginTime)), Text(TextOf(platform))]
    }

    constructor ()
      ensures Valid()
      ensures View() ==
              [Text(None), Num(1, 0), Num(1, 0), Text(None), Num(1, 0), Num(4, 0), Num(4, 0), Text(None)]
    {
      serverName, isCommend, kind, serverId, status := NULL_TEXT, 0, 0, NULL_TEXT, 0;
      activeTime, loginTime, platform := 0, 0, NULL_TEXT;
    }

    method SetServerName(s: Option<seq<Byte>>, len: nat)
      requires Valid() && Settable(s, len)
      modifies this
      ensures Valid() && View()[0].Text? && Sets(s, len, View()[0].text)
      ensures View() == old(View())[0 := View()[0]]
    {
      serverName := Replace(serverName, s, len);
    }

    method SetServerId(s: Option<seq<Byte>>, len: nat)
      requires Valid() && Settable(s, len)
      modifies this
      ensures Valid() && View()[3].Text? && Sets(s, len, View()[3].text)
      ensures View() == old(View())[3 := View()[3]]
    {
      serverId := Replace(serverId, s, len);
    }

    method SetPlatform(s: Option<seq<Byte>>, len: nat)
      requires Valid() && Settable(s, len)
      modifies this
      ensures Valid() && View()[7].Text? && Sets(s, len, View()[7].text)
      ensures View() == old(View())[7 := View()[7]]
    {
      platform := Replace(platform, s, len);
    }

    /** Where each field comes from. */
    method Deserialize(m: Memory, from: nat, limit: int) returns (ok: bool, buf: nat, count: int)
      requires Valid()
      modifies this
      ensures Valid()
      ensures ReadObject(m, Cursor(from, limit), old(View())) == Read(ok, View(), Cursor(buf, count))
      ensures ok ==> ServerAt(m, from, this, buf)
    {
      hide ReadObject, ObjectBytes, Placed, ServerAt;
      ghost var before := View();
      ok, buf, count := DeserializeFields(m, from, limit);
      if ok {
        ObjectSpells(m, Cursor(from, limit), before);
        ServerPlacedAt(m, from, this);
      }
    }

    method DeserializeFields(m: Memory, from: nat, limit: int) returns (ok: bool, buf: nat, count: int)
      requires Valid()
      modifies this
      ensures Valid()
      ensures ReadObject(m, Cursor(from, limit), old(View())) == Read(ok, View(), Cursor(buf, count))
    {
      hide ReadField, Number, Power256, Slice, WellFormed, TextOf, Signed, Unsigned;
      Widths();
      ghost var whole := ReadObject(m, Cursor(from, limit), View());
      buf, count := from, limit - 1;
      if count < 0 {
        return false, buf, count;
      }
      var mark := m(buf);
      buf := buf + 1;
      if mark != 0 {
        return false, buf, count;
      }
      var number: nat;
      var text: CText;
      ghost var before := View();
      assert whole == ReadFields(m, Cursor(buf, count), View(), 0);
      ok, text, buf, count := ReadText(m, buf, count, serverName);
      if !ok {
        return;
      }
      before := View();
      serverName := text;
      assert View() == before[0 := Text(TextOf(text))];
      assert whole == ReadFields(m, Cursor(buf, count), View(), 1);
      ok, number, buf, count := ReadNumber(m, buf, count, 1);
      if !ok {
        return;
      }
      before := View();
      isCommend := number;
      assert View() == before[1 := Num(1, number)];
      assert whole == ReadFields(m, Cursor(buf, count), View(), 2);
      ok, number, buf, count := ReadNumber(m, buf, count, 1);
      if !ok {
        return;
      }
      before := View();
      kind := number;
      assert View() == before[2 := Num(1, number)];
      assert whole == ReadFields(m, Cursor(buf, count), View(), 3);
      ok, text, buf, count := ReadText(m, buf, count, serverId);
      if !ok {
        return;
      }
      before := View();
      serverId := text;
      assert View() == before[3 := Text(TextOf(text))];
      assert whole == ReadFields(m, Cursor(buf, count), View(), 4);
      ok, buf, count := DeserializeRest(m, buf, count);
    }

    /** The fields from Status on. */
    method DeserializeRest(m: Memory, from: nat, limit: int) returns (ok: bool, buf: nat, count: int)
      requires Valid()
      modifies this
      ensures Valid()
      ensures ReadFields(m, Cursor(from, limit), old(View()), 4) == Read(ok, View(), Cursor(buf, count))
    {
      hide ReadField, Number, Power256, Slice, WellFormed, TextOf, Signed, Unsigned;
      Widths();
      ghost var start := ReadFields(m, Cursor(from, limit), View(), 4);
      var number: nat;
      var text: CText;
      ghost var before := View();
      buf, count := from, limit;
      ok, number, buf, count := ReadNumber(m, buf, count, 1);
      if !ok {
        return;
      }
      before := View();
      status := number;
      assert View() == before[4 := Num(1, number)];
      assert start == ReadFields(m, Cursor(buf, count), View(), 5);
      ok, number, buf, count := ReadNumber(m, buf, count, 4);
      if !ok {
        return;
      }
      before := View();
      activeTime := Signed(number);
      assert View() == before[5 := Num(4, number)];
      assert start == ReadFields(m, Cursor(buf, count), View(), 6);
      ok, number, buf, count := ReadNumber(m, buf, count, 4);
      if !ok {
        return;
      }
      before := View();
      loginTime := Signed(number);
      assert View() == before[6 := Num(4, number)];
      assert start == ReadFields(m, Cursor(buf, count), View(), 7);
      ok, text, buf, count := ReadText(m, buf, count, platform);
      if !ok {
        return;
      }
      before := View();
      platform := text;
      assert View() == before[7 := Text(TextOf(text))];
      assert start == ReadFields(m, Cursor(buf, count), View(), 8);
    }

    method Serialize(s: Stream)
      requires Valid()
      modifies s
      ensures AllFit(View()) && s.bytes == old(s.bytes) + ObjectBytes(View())
      ensures s.bytes ==
              old(s.bytes)
              + ([0] + TextBytesOf(serverName) + [isCommend, kind] + TextBytesOf(serverId)
                 + [status, activeTime % 256, activeTime / 256 % 256, activeTime / 0x1_0000 % 256,
                    activeTime / 0x100_0000 % 256, loginTime % 256, loginTime / 256 % 256,
                    loginTime / 0x1_0000 % 256, loginTime / 0x100_0000 % 256]
                 + TextBytesOf(platform))
    {
      hide Power256, Bytes, WellFormed, TextOf, TextBytes, FieldsBytes, TextBytesOf;
      ServerWire(this);
      Widths();
      ghost var fields := View();
      ghost var whole := s.bytes + ObjectBytes(fields);
      WritesFields(s.bytes, fields);
      s.Put(0);
      WroteField(s.bytes, fields, 0, whole);
      s.WriteText(serverName);
      WroteField(s.bytes, fields, 1, whole);
      s.PutNumber(isCommend);
      WroteField(s.bytes, fields, 2, whole);
      s.PutNumber(kind);
      WroteField(s.bytes, fields, 3, whole);
      s.WriteText(serverId);
      WroteField(s.bytes, fields, 4, whole);
      s.PutNumber(status);
      WroteField(s.bytes, fields, 5, whole);
      s.Write(Bytes(4, Unsigned(activeTime)));
      WroteField(s.bytes, fields, 6, whole);
      s.Write(Bytes(4, Unsigned(loginTime)));
      WroteField(s.bytes, fields, 7, whole);
      s.WriteText(platform);
      WroteFields(s.bytes, fields, whole);
    }
  }

  // ---------------------------------------------------------------- the wire, byte by byte

  lemma ServerWire(x: XiYouGameServer)
    requires x.Valid()
    ensures AllFit(x.View())
    ensures ObjectBytes(x.View()) ==
            [0] + TextBytesOf(x.serverName) + [x.isCommend, x.kind] + TextBytesOf(x.serverId)
            + [x.status, x.activeTime % 256, x.activeTime / 256 % 256, x.activeTime / 0x1_0000 % 256,
               x.activeTime / 0x100_0000 % 256, x.loginTime % 256, x.loginTime / 256 % 256,
               x.loginTime / 0x1_0000 % 256, x.loginTime / 0x100_0000 % 256]
            + TextBytesOf(x.platform)
  {
    hide Power256, Bytes, FieldBytes, WellFormed, TextOf, TextBytes, FieldsBytes, TextBytesOf, Unsigned;
    Widths();
    ServerFitsItsKind(x);
    var f := x.View();
    assert f[0..] == f;
    UnrollField(f, 0);
    UnrollField(f, 1);
    UnrollField(f, 2);
    UnrollField(f, 3);
    UnrollField(f, 4);
    UnrollField(f, 5);
    UnrollField(f, 6);
    UnrollField(f, 7);
    TextWire(x.serverName);
    SmallField(x.isCommend);
    SmallField(x.kind);
    TextWire(x.serverId);
    SmallField(x.status);
    SignedField(x.activeTime);
    SignedField(x.loginTime);
    TextWire(x.platform);
    ServerJoined(FieldBytes(f[0]), FieldBytes(f[1]), FieldBytes(f[2]), FieldBytes(f[3]), FieldBytes(f[4]),
      FieldBytes(f[5]), FieldBytes(f[6]), FieldBytes(f[7]));
  }

  lemma ServerJoined(a: seq<Byte>, b: seq<Byte>, c: seq<Byte>, d: seq<Byte>, e: seq<Byte>, f: seq<Byte>,
          g: seq<Byte>, h: seq<Byte>)
    requires |b| == |c| == |e| == 1 && |f| == |g| == 4
    ensures [0] + (a + (b + (c + (d + (e + (f + (g + (h + [])))))))) ==
            [0] + a + [b[0], c[0]] + d + [e[0], f[0], f[1], f[2], f[3], g[0], g[1], g[2], g[3]] + h
  {
    var bc, efg := b + c, e + (f + g);
    assert bc == [b[0], c[0]] && efg == [e[0], f[0], f[1], f[2], f[3], g[0], g[1], g[2], g[3]];
    assert h + [] == h && e + (f + (g + h)) == efg + h && b + (c + (d + (efg + h))) == bc + (d + (efg + h));
    T.Assoc([0], a, bc + (d + (efg + h)));
    T.Assoc([0] + a, bc, d + (efg + h));
    T.Assoc([0] + a + bc, d, efg + h);
    T.Assoc([0] + a + bc + d, efg, h);
  }

  /** The fields of a server as they stand in memory from one address up to another. */
  ghost predicate ServerAt(m: Memory, from: nat, x: XiYouGameServer, end: nat)
    requires x.Valid()
    reads x
  {
    var p := from + 1 + TextSize(x.serverName);
    var q := p + 2 + TextSize(x.serverId);
    && m(from) == 0 && TextAt(m, from + 1, x.serverName)
    && x.isCommend == m(p) && x.kind == m(p + 1) && TextAt(m, p + 2, x.serverId)
    && x.status == m(q) && x.activeTime == SignedQuad(m, q + 1) && x.loginTime == SignedQuad(m, q + 5)
    && TextAt(m, q + 9, x.platform) && end == q + 9 + TextSize(x.platform)
  }

  lemma ServerPlacedAt(m: Memory, from: nat, x: XiYouGameServer)
    requires x.Valid() && AllFit(x.View()) && Placed(m, from, ObjectBytes(x.View()))
    ensures ServerAt(m, from, x, from + |ObjectBytes(x.View())|)
  {
    hide ObjectBytes, Placed, WellFormed, TextBytesOf, TextAt, SignedQuad, XiYouGameServer.View;
    ServerWire(x);
    var a, c, e := TextBytesOf(x.serverName), TextBytesOf(x.serverId), TextBytesOf(x.platform);
    var b: seq<Byte> := [x.isCommend, x.kind];
    var d: seq<Byte> :=
      [x.status, x.activeTime % 256, x.activeTime / 256 % 256, x.activeTime / 0x1_0000 % 256,
       x.activeTime / 0x100_0000 % 256, x.loginTime % 256, x.loginTime / 256 % 256,
       x.loginTime / 0x1_0000 % 256, x.loginTime / 0x100_0000 % 256];
    PlacedConcat(m, from, [0] + a + b + c + d, e);
    PlacedConcat(m, from, [0] + a + b + c, d);
    PlacedConcat(m, from, [0] + a + b, c);
    PlacedConcat(m, from, [0] + a, b);
    PlacedConcat(m, from, [0], a);
    TextSizes(x.serverName);
    TextSizes(x.serverId);
    TextSizes(x.platform);
    var p := from + 1 + |a|;
    var q := p + 2 + |c|;
    ByteAt(m, from, [0], 0);
    TextPlaced(m, from + 1, x.serverName);
    ByteAt(m, p, b, 0);
    ByteAt(m, p, b, 1);
    TextPlaced(m, p + 2, x.serverId);
    TimesPlacedAt(m, q, x, d);
    TextPlaced(m, q + 9, x.platform);
  }

  lemma TimesPlacedAt(m: Memory, q: nat, x: XiYouGameServer, d: seq<Byte>)
    requires x.Valid() && Placed(m, q, d)
    requires d == [x.status, x.activeTime % 256, x.activeTime / 256 % 256, x.activeTime / 0x1_0000 % 256,
                   x.activeTime / 0x100_0000 % 256, x.loginTime % 256, x.loginTime / 256 % 256,
                   x.loginTime / 0x1_0000 % 256, x.loginTime / 0x100_0000 % 256]
    ensures x.status == m(q) && x.activeTime == SignedQuad(m, q + 1) && x.loginTime == SignedQuad(m, q + 5)
  {
    hide Placed, WellFormed, SignedQuad;
    ByteAt(m, q, d, 0);
    QuadAt(m, q, d, 1, x.activeTime);
    QuadAt(m, q, d, 5, x.loginTime);
  }

  lemma ServerFitsItsKind(s: XiYouGameServer)
    requires s.Valid()
    ensures ServerFits(Some(s.View()))
  {
    hide Power256, WellFormed, TextOf;
    Widths();
  }

  ghost function ServerView(s: XiYouGameServer?): Server
    requires s != null ==> s.Valid()
    reads s
  {
    if s == null then None else Some(s.View())
  }

  ghost predicate AllValid(list: seq<XiYouGameServer?>)
    reads list
  {
    forall i :: 0 <= i < |list| && list[i] != null ==> list[i].Valid()
  }

  ghost function ServerViews(list: seq<XiYouGameServer?>): (r: seq<Server>)
    requires AllValid(list)
    reads list
    ensures |r| == |list| && forall i :: 0 <= i < |list| ==> r[i] == ServerView(list[i])
  {
    if list == [] then [] else [ServerView(list[0])] + ServerViews(list[1..])
  }

  class LoginAccountResponse {
    var userId: CText
    var userName: CText
    var channelId: CText
    var channelUserId: CText
    var defaultServer: XiYouGameServer?
    /** A pointer to a vector of pointers. */
    var loggedServers: Option<seq<XiYouGameServer?>>

    ghost function Items(): seq<XiYouGameServer?>
      reads this
    {
      if loggedServers.Some? then loggedServers.value else []
    }

    /** The objects that belong to this one. */
    ghost function Owned(): set<XiYouGameServer>
      reads this
    {
      (if defaultServer == null then {} else {defaultServer}) + (set s | s in Items() && s != null)
    }

    ghost predicate Valid()
      reads this, Owned()
    {
      && TextsFit()
      && (defaultServer != null ==> defaultServer.Valid() && defaultServer !in Items())
      && AllValid(Items())
    }

    ghost predicate TextsFit()
      reads this`userId, this`userName, this`channelId, this`channelUserId
    {
      WellFormed(userId) && WellFormed(userName) && WellFormed(channelId) && WellFormed(channelUserId)
    }

    ghost function TextFields(): seq<Field>
      requires TextsFit()
      reads this
    {
      [Text(TextOf(userId)), Text(TextOf(userName)), Text(TextOf(channelId)), Text(TextOf(channelUserId))]
    }

    ghost function ListView(): Option<seq<Server>>
      requires AllValid(Items())
      reads this, Items()
    {
      if loggedServers.None? then None else Some(ServerViews(loggedServers.value))
    }

    ghost function View(): Login
      requires Valid()
      reads this, Owned()
    {
      Login(TextFields(), ServerView(defaultServer), ListView())
    }

    constructor ()
      ensures Valid() && View() == NEW_LOGIN && Owned() == {}
    {
      userId, userName, channelId, channelUserId := NULL_TEXT, NULL_TEXT, NULL_TEXT, NULL_TEXT;
      defaultServer, loggedServers := null, None;
    }

    method Deserialize(m: Memory, from: nat, limit: int) returns (ok: bool, buf: nat, count: int)
      requires Valid()
      modifies this, Owned()
      ensures Valid() && fresh(Owned() - old(Owned()))
      ensures ReadLogin(m, Cursor(from, limit), old(View())) == Read(ok, View(), Cursor(buf, count))
      ensures ok ==> TextsAt(m, from, this) && (defaultServer == null <==> m(from + TextsSize(this)) != 0)
    {
      hide TextsAt, ReadObject, ReadServer, ReadList, ServerViews, XiYouGameServer.View, XiYouGameServer.Valid;
      ok, buf, count := DeserializeTexts(m, from, limit);
      if !ok {
        return;
      }
      if count - 1 < 0 {
        return false, buf, count;
      }
      buf, count := DeserializeDefault(m, buf, count);
      ok, buf, count := DeserializeList(m, buf, count);
    }

    /** The mark and the four texts. */
    method DeserializeTexts(m: Memory, from: nat, limit: int) returns (ok: bool, buf: nat, count: int)
      requires TextsFit()
      modifies this`userId, this`userName, this`channelId, this`channelUserId
      ensures TextsFit()
      ensures ReadObject(m, Cursor(from, limit), old(TextFields())) == Read(ok, TextFields(), Cursor(buf, count))
      ensures ok ==> TextsAt(m, from, this) && buf == from + TextsSize(this)
    {
      hide ReadObject, ObjectBytes, Placed, TextsAt;
      ghost var before := TextFields();
      ok, buf, count := DeserializeTextFields(m, from, limit);
      if ok {
        ObjectSpells(m, Cursor(from, limit), before);
        TextsPlacedAt(m, from, this);
      }
    }

    method DeserializeTextFields(m: Memory, from: nat, limit: int) returns (ok: bool, buf: nat, count: int)
      requires TextsFit()
      modifies this`userId, this`userName, this`channelId, this`channelUserId
      ensures TextsFit()
      ensures ReadObject(m, Cursor(from, limit), old(TextFields())) == Read(ok, TextFields(), Cursor(buf, count))
    {
      hide ReadField, Number, Power256, Slice, WellFormed, TextOf;
      ghost var whole := ReadObject(m, Cursor(from, limit), TextFields());
      buf, count := from, limit - 1;
      if count < 0 {
        return false, buf, count;
      }
      var mark := m(buf);
      buf := buf + 1;
      if mark != 0 {
        return false, buf, count;
      }
      var text: CText;
      ghost var before := TextFields();
      assert whole == ReadFields(m, Cursor(buf, count), TextFields(), 0);
      ok, text, buf, count := ReadText(m, buf, count, userId);
      if !ok {
        return;
      }
      before := TextFields();
      userId := text;
      assert TextFields() == before[0 := Text(TextOf(text))];
      assert whole == ReadFields(m, Cursor(buf, count), TextFields(), 1);
      ok, text, buf, count := ReadText(m, buf, count, userName);
      if !ok {
        return;
      }
      before := TextFields();
      userName := text;
      assert TextFields() == before[1 := Text(TextOf(text))];
      assert whole == ReadFields(m, Cursor(buf, count), TextFields(), 2);
      ok, text, buf, count := ReadText(m, buf, count, channelId);
      if !ok {
        return;
      }
      before := TextFields();
      channelId := text;
      assert TextFields() == before[2 := Text(TextOf(text))];
      assert whole == ReadFields(m, Cursor(buf, count), TextFields(), 3);
      ok, text, buf, count := ReadText(m, buf, count, channelUserId);
      if !ok {
        return;
      }
      before := TextFields();
      channelUserId := text;
      assert TextFields() == before[3 := Text(TextOf(text))];
      assert whole == ReadFields(m, Cursor(buf, count), TextFields(), 4);
    }

    /** The nested server, whose result is not looked at. */
    method DeserializeDefault(m: Memory, from: nat, limit: int) returns (buf: nat, count: int)
      requires Valid()
      modifies this`defaultServer, if defaultServer == null then {} else {defaultServer}
      ensures Valid() && fresh(Owned() - old(Owned())) && ListView() == old(ListView())
      ensures ReadServer(m, Cursor(from, limit), old(ServerView(defaultServer))).value == ServerView(defaultServer)
      ensures ReadServer(m, Cursor(from, limit), old(ServerView(defaultServer))).at == Cursor(buf, count)
      ensures defaultServer == null <==> m(from) != 0
    {
      hide ReadObject, XiYouGameServer.View, XiYouGameServer.Valid;
      buf, count := from, limit;
      if m(buf) != 0 {
        buf := buf + 1;
        defaultServer := null;
      } else {
        if defaultServer == null {
          defaultServer := new XiYouGameServer();
        }
        var ok: bool;
        ok, buf, count := defaultServer.Deserialize(m, buf, count);
      }
    }

    /** The vector, replaced by a new one. */
    method DeserializeList(m: Memory, from: nat, limit: int) returns (ok: bool, buf: nat, count: int)
      requires Valid()
      modifies this`loggedServers
      ensures Valid() && fresh(Owned() - old(Owned()))
      ensures ReadList(m, Cursor(from, limit), old(ListView())) == Read(ok, ListView(), Cursor(buf, count))
    {
      hide ReadObject, ReadItems, Number, XiYouGameServer.View, XiYouGameServer.Valid;
      ok, buf, count := true, from, limit - 2;
      if count < 0 {
        return false, buf, count;
      }
      var xlen := Number(m, buf, 2);
      buf := buf + 2;
      if xlen == NULL_LENGTH {
        loggedServers := None;
        return;
      }
      ghost var start := Cursor(buf, count);
      var list: seq<XiYouGameServer?> := seq(xlen, _ => null);
      loggedServers := Some(list);
      assert ServerViews(list) == seq(xlen, _ => None);
      ok, buf, count := DeserializeItems(m, buf, count, xlen);
    }

    /** One object of the list: a new one, in place before it is read. */
    method DeserializeItem(m: Memory, from: nat, limit: int, idx: nat) returns (ok: bool, buf: nat, count: int)
      requires Valid() && loggedServers.Some? && idx < |loggedServers.value|
      modifies this`loggedServers
      ensures Valid() && loggedServers.Some? && |loggedServers.value| == |old(loggedServers.value)|
      ensures fresh(loggedServers.value[idx])
      ensures loggedServers.value == old(loggedServers.value)[idx := loggedServers.value[idx]]
      ensures var r := ReadObject(m, Cursor(from, limit), NEW_SERVER);
              r.ok == ok && r.at == Cursor(buf, count)
              && ServerViews(loggedServers.value) == old(ServerViews(loggedServers.value))[idx := Some(r.value)]
    {
      hide ReadObject, ServerViews, XiYouGameServer.View, XiYouGameServer.Valid;
      ghost var before, views := loggedServers.value, ServerViews(loggedServers.value);
      var server := new XiYouGameServer();
      assert server !in before;
      loggedServers := Some(loggedServers.value[idx := server]);
      ok, buf, count := server.Deserialize(m, from, limit);
      forall i | 0 <= i < |before| && i != idx
        ensures before[i] != null ==> before[i].Valid()
        ensures ServerView(before[i]) == views[i]
      {
        assert before[i] != server;
        assert before[i] != null ==> old(before[i].Valid());
      }
      assert AllValid(loggedServers.value);
      assert ServerViews(loggedServers.value) == views[idx := Some(server.View())];
    }

    /** A null in the list. */
    method DropItem(idx: nat)
      requires Valid() && loggedServers.Some? && idx < |loggedServers.value|
      modifies this`loggedServers
      ensures Valid() && loggedServers.Some?
      ensures loggedServers.value == old(loggedServers.value)[idx := null]
      ensures ServerViews(loggedServers.value) == old(ServerViews(loggedServers.value))[idx := None]
    {
      hide XiYouGameServer.View, XiYouGameServer.Valid;
      ghost var views := ServerViews(loggedServers.value);
      loggedServers := Some(loggedServers.value[idx := null]);
      assert ServerViews(loggedServers.value) == views[idx := None];
    }

    method DeserializeItems(m: Memory, from: nat, limit: int, xlen: nat) returns (ok: bool, buf: nat, count: int)
      requires Valid() && loggedServers == Some(seq(xlen, _ => null))
      modifies this`loggedServers
      ensures Valid() && loggedServers.Some?
      ensures forall i :: 0 <= i < |Items()| && Items()[i] != null ==> fresh(Items()[i])
      ensures ReadItems(m, Cursor(from, limit), old(ServerViews(loggedServers.value)), 0) ==
              Read(ok, ServerViews(loggedServers.value), Cursor(buf, count))
    {
      hide ReadObject, ReadItems, ServerViews, Owned, AllValid, XiYouGameServer.View, XiYouGameServer.Valid;
      buf, count := from, limit;
      ghost var whole := ReadItems(m, Cursor(from, limit), ServerViews(loggedServers.value), 0);
      for idx := 0 to xlen
        invariant Valid() && loggedServers.Some? && |loggedServers.value| == xlen
        invariant forall i :: 0 <= i < xlen && loggedServers.value[i] != null ==> fresh(loggedServers.value[i])
        invariant whole == ReadItems(m, Cursor(buf, count), ServerViews(loggedServers.value), idx)
      {
        ItemsStep(m, Cursor(buf, count), ServerViews(loggedServers.value), idx);
        if count - 1 < 0 {
          return false, buf, count;
        }
        if m(buf) != 0 {
          buf := buf + 1;
          DropItem(idx);
          continue;
        }
        ok, buf, count := DeserializeItem(m, buf, count, idx);
        if !ok {
          return;
        }
      }
      ItemsDone(m, Cursor(buf, count), ServerViews(loggedServers.value));
      return true, buf, count;
    }

    method Serialize(s: Stream)
      requires Valid()
      modifies s
      ensures LoginFits(View()) && s.bytes == old(s.bytes) + LoginBytes(View())
    {
      hide ObjectBytes, ServerBytes, ListBytes, ServerViews, ListFits, XiYouGameServer.View, XiYouGameServer.Valid;
      ghost var start := s.bytes;
      SerializeTexts(s);
      PutServer(defaultServer, s);
      SerializeList(s);
      ghost var texts, list := ObjectBytes(TextFields()), ListBytes(ListView());
      ghost var server := ServerBytes(ServerView(defaultServer));
      T.Assoc(start, texts, server);
      T.Assoc(start, texts + server, list);
      T.Assoc(texts, server, list);
    }

    method SerializeTexts(s: Stream)
      requires TextsFit()
      modifies s
      ensures AllFit(TextFields()) && SameKinds(TextFields(), NEW_TEXTS)
      ensures s.bytes == old(s.bytes) + ObjectBytes(TextFields())
      ensures s.bytes ==
              old(s.bytes)
              + ([0] + TextBytesOf(userId) + TextBytesOf(userName) + TextBytesOf(channelId)
                 + TextBytesOf(channelUserId))
    {
      hide Bytes, WellFormed, TextOf, TextBytes, FieldsBytes, TextBytesOf;
      TextsWire(this);
      ghost var fields := TextFields();
      ghost var whole := s.bytes + ObjectBytes(fields);
      WritesFields(s.bytes, fields);
      s.Put(0);
      WroteField(s.bytes, fields, 0, whole);
      s.WriteText(userId);
      WroteField(s.bytes, fields, 1, whole);
      s.WriteText(userName);
      WroteField(s.bytes, fields, 2, whole);
      s.WriteText(channelId);
      WroteField(s.bytes, fields, 3, whole);
      s.WriteText(channelUserId);
      WroteFields(s.bytes, fields, whole);
    }

    /** The length, 0xffff for null, and the elements; no more than 0xfffe are written. */
    method SerializeList(s: Stream)
      requires Valid()
      modifies s
      ensures ListView().Some? ==> ListFits(ListView().value)
      ensures s.bytes == old(s.bytes) + ListBytes(ListView())
    {
      hide ServerBytes, ServerFits, ServerViews, Bytes, XiYouGameServer.View, XiYouGameServer.Valid;
      var len := NULL_LENGTH;
      if loggedServers.Some? {
        ViewsFit(loggedServers.value);
        var lsize := |loggedServers.value|;
        if lsize >= 0xffff {
          lsize := 0xfffe;
        }
        len := lsize;
      }
      s.Write(Bytes(2, len));
      if len > 0 && len != NULL_LENGTH {
        ghost var list := Capped(ServerViews(loggedServers.value));
        ghost var whole := s.bytes + ItemsBytes(list);
        assert list[0..] == list;
        T.Assoc(old(s.bytes), Bytes(2, len), ItemsBytes(list));
        for idx := 0 to len
          invariant s.bytes + ItemsBytes(list[idx..]) == whole
        {
          WroteItem(s.bytes, list, idx, whole);
          PutServer(loggedServers.value[idx], s);
        }
      }
    }
  }

  /** The four texts as they stand in memory behind the mark. */
  ghost predicate TextsAt(m: Memory, from: nat, x: LoginAccountResponse)
    requires x.TextsFit()
    reads x`userId, x`userName, x`channelId, x`channelUserId
  {
    var p := from + 1 + TextSize(x.userId);
    var q := p + TextSize(x.userName);
    && m(from) == 0 && TextAt(m, from + 1, x.userId) && TextAt(m, p, x.userName)
    && TextAt(m, q, x.channelId) && TextAt(m, q + TextSize(x.channelId), x.channelUserId)
  }

  ghost function TextsSize(x: LoginAccountResponse): nat
    reads x`userId, x`userName, x`channelId, x`channelUserId
  {
    1 + TextSize(x.userId) + TextSize(x.userName) + TextSize(x.channelId) + TextSize(x.channelUserId)
  }

  lemma TextsWire(x: LoginAccountResponse)
    requires x.TextsFit()
    ensures AllFit(x.TextFields())
    ensures ObjectBytes(x.TextFields()) ==
            [0] + TextBytesOf(x.userId) + TextBytesOf(x.userName) + TextBytesOf(x.channelId)
            + TextBytesOf(x.channelUserId)
  {
    hide Bytes, FieldBytes, WellFormed, TextOf, TextBytes, FieldsBytes, TextBytesOf;
    var f := x.TextFields();
    assert f[0..] == f;
    UnrollField(f, 0);
    UnrollField(f, 1);
    UnrollField(f, 2);
    UnrollField(f, 3);
    TextWire(x.userId);
    TextWire(x.userName);
    TextWire(x.channelId);
    TextWire(x.channelUserId);
    var a, b, c, d := FieldBytes(f[0]), FieldBytes(f[1]), FieldBytes(f[2]), FieldBytes(f[3]);
    assert d + [] == d;
    T.Assoc([0], a, b + (c + d));
    T.Assoc([0] + a, b, c + d);
    T.Assoc([0] + a + b, c, d);
  }

  lemma TextsPlacedAt(m: Memory, from: nat, x: LoginAccountResponse)
    requires x.TextsFit() && AllFit(x.TextFields()) && Placed(m, from, ObjectBytes(x.TextFields()))
    ensures TextsAt(m, from, x) && |ObjectBytes(x.TextFields())| == TextsSize(x)
  {
    hide ObjectBytes, Placed, WellFormed, TextBytesOf, TextAt, LoginAccountResponse.TextFields;
    TextsWire(x);
    var a, b := TextBytesOf(x.userId), TextBytesOf(x.userName);
    var c, d := TextBytesOf(x.channelId), TextBytesOf(x.channelUserId);
    PlacedConcat(m, from, [0] + a + b + c, d);
    PlacedConcat(m, from, [0] + a + b, c);
    PlacedConcat(m, from, [0] + a, b);
    PlacedConcat(m, from, [0], a);
    TextSizes(x.userId);
    TextSizes(x.userName);
    TextSizes(x.channelId);
    TextSizes(x.channelUserId);
    ByteAt(m, from, [0], 0);
    TextPlaced(m, from + 1, x.userId);
    TextPlaced(m, from + 1 + |a|, x.userName);
    TextPlaced(m, from + 1 + |a| + |b|, x.channelId);
    TextPlaced(m, from + 1 + |a| + |b| + |c|, x.channelUserId);
  }

  class GenericResponse {
    var code: int
    var message: CText
    var tag: LoginAccountResponse?

    /** The objects that belong to this one. */
    ghost function Owned(): set<object>
      reads this, tag
    {
      if tag == null then {} else {tag} + tag.Owned()
    }

    ghost predicate HeadFits()
      reads this
    {
      -0x8000_0000 <= code < 0x8000_0000 && WellFormed(message)
    }

    ghost predicate Valid()
      reads this, tag, Owned()
    {
      HeadFits() && (tag != null ==> tag.Valid())
    }

    ghost function HeadFields(): seq<Field>
      requires HeadFits()
      reads this
    {
      [Num(4, Unsigned(code)), Text(TextOf(message))]
    }

    ghost function View(): Response
      requires Valid()
      reads this, tag, Owned()
    {
      Response(HeadFields(), if tag == null then None else Some(tag.View()))
    }

    constructor ()
      ensures Valid() && View() == Response(NEW_HEAD, None) && Owned() == {}
    {
      code, message, tag := 0, NULL_TEXT, null;
    }

    method Deserialize(m: Memory, from: nat, limit: int) returns (ok: bool, buf: nat, count: int)
      requires Valid()
      modifies this, Owned()
      ensures Valid() && fresh(Owned() - old(Owned()))
      ensures ReadResponse(m, Cursor(from, limit), old(View())) == Read(ok, View(), Cursor(buf, count))
      ensures ok ==>
                && m(from) == 0 && code == SignedQuad(m, from + 1) && TextAt(m, from + 5, message)
                && (tag == null <==> m(from + 5 + TextSize(message)) != 0)
    {
      hide TextAt, SignedQuad, TextsAt, ReadObject, ReadLogin, LoginAccountResponse.View, LoginAccountResponse.Valid;
      ok, buf, count := DeserializeHead(m, from, limit);
      if !ok {
        return;
      }
      if count - 1 < 0 {
        return false, buf, count;
      }
      if m(buf) != 0 {
        buf := buf + 1;
        tag := null;
      } else {
        if tag == null {
          tag := new LoginAccountResponse();
        }
        ok, buf, count := tag.Deserialize(m, buf, count);
      }
      return true, buf, count;
    }

    /** The mark, Code and Message. */
    method DeserializeHead(m: Memory, from: nat, limit: int) returns (ok: bool, buf: nat, count: int)
      requires HeadFits()
      modifies this`code, this`message
      ensures HeadFits()
      ensures ReadObject(m, Cursor(from, limit), old(HeadFields())) == Read(ok, HeadFields(), Cursor(buf, count))
      ensures ok ==>
                && m(from) == 0 && code == SignedQuad(m, from + 1) && TextAt(m, from + 5, message)
                && buf == from + 5 + TextSize(message)
    {
      hide ReadObject, ObjectBytes, Placed, TextAt, SignedQuad;
      ghost var before := HeadFields();
      ok, buf, count := DeserializeHeadFields(m, from, limit);
      if ok {
        ObjectSpells(m, Cursor(from, limit), before);
        HeadPlacedAt(m, from, this);
      }
    }

    method DeserializeHeadFields(m: Memory, from: nat, limit: int) returns (ok: bool, buf: nat, count: int)
      requires HeadFits()
      modifies this`code, this`message
      ensures HeadFits()
      ensures ReadObject(m, Cursor(from, limit), old(HeadFields())) == Read(ok, HeadFields(), Cursor(buf, count))
    {
      hide ReadField, Number, Power256, Slice, WellFormed, TextOf, Signed, Unsigned;
      Widths();
      ghost var whole := ReadObject(m, Cursor(from, limit), HeadFields());
      buf, count := from, limit - 1;
      if count < 0 {
        return false, buf, count;
      }
      var mark := m(buf);
      buf := buf + 1;
      if mark != 0 {
        return false, buf, count;
      }
      var number: nat;
      var text: CText;
      ghost var before := HeadFields();
      assert whole == ReadFields(m, Cursor(buf, count), HeadFields(), 0);
      ok, number, buf, count := ReadNumber(m, buf, count, 4);
      if !ok {
        return;
      }
      before := HeadFields();
      code := Signed(number);
      assert HeadFields() == before[0 := Num(4, number)];
      assert whole == ReadFields(m, Cursor(buf, count), HeadFields(), 1);
      ok, text, buf, count := ReadText(m, buf, count, message);
      if !ok {
        return;
      }
      before := HeadFields();
      message := text;
      assert HeadFields() == before[1 := Text(TextOf(text))];
      assert whole == ReadFields(m, Cursor(buf, count), HeadFields(), 2);
    }

    method Serialize(s: Stream)
      requires Valid()
      modifies s
      ensures ResponseFits(View()) && s.bytes == old(s.bytes) + ResponseBytes(View())
    {
      hide ObjectBytes, LoginBytes, LoginFits, LoginAccountResponse.View, LoginAccountResponse.Valid;
      ghost var start := s.bytes;
      assert tag != null ==> forall x :: x in tag.Owned() ==> (x as object) != s;
      SerializeHead(s);
      assert tag != null ==> tag.Valid();
      ghost var head := ObjectBytes(HeadFields());
      if tag == null {
        s.Put(1);
        T.Assoc(start, head, [1]);
      } else {
        tag.Serialize(s);
        T.Assoc(start, head, LoginBytes(tag.View()));
      }
    }

    method SerializeHead(s: Stream)
      requires HeadFits()
      modifies s
      ensures AllFit(HeadFields()) && SameKinds(HeadFields(), NEW_HEAD)
      ensures s.bytes == old(s.bytes) + ObjectBytes(HeadFields())
      ensures s.bytes ==
              old(s.bytes)
              + ([0, code % 256, code / 256 % 256, code / 0x1_0000 % 256, code / 0x100_0000 % 256]
                 + TextBytesOf(message))
    {
      hide Power256, Bytes, WellFormed, TextOf, TextBytes, FieldsBytes, TextBytesOf;
      HeadWire(this);
      Widths();
      ghost var fields := HeadFields();
      ghost var whole := s.bytes + ObjectBytes(fields);
      WritesFields(s.bytes, fields);
      s.Put(0);
      WroteField(s.bytes, fields, 0, whole);
      s.Write(Bytes(4, Unsigned(code)));
      WroteField(s.bytes, fields, 1, whole);
      s.WriteText(message);
      WroteFields(s.bytes, fields, whole);
    }
  }

  lemma HeadWire(x: GenericResponse)
    requires x.HeadFits()
    ensures AllFit(x.HeadFields())
    ensures ObjectBytes(x.HeadFields()) ==
            [0, x.code % 256, x.code / 256 % 256, x.code / 0x1_0000 % 256, x.code / 0x100_0000 % 256]
            + TextBytesOf(x.message)
  {
    hide Power256, Bytes, FieldBytes, WellFormed, TextOf, TextBytes, FieldsBytes, TextBytesOf, Unsigned;
    SignedField(x.code);
    var f := x.HeadFields();
    assert f[0..] == f;
    UnrollField(f, 0);
    UnrollField(f, 1);
    TextWire(x.message);
    var a, b := FieldBytes(f[0]), FieldBytes(f[1]);
    assert b + [] == b && [0] + a == [0, a[0], a[1], a[2], a[3]];
    T.Assoc([0], a, b);
  }

  lemma HeadPlacedAt(m: Memory, from: nat, x: GenericResponse)
    requires x.HeadFits() && AllFit(x.HeadFields()) && Placed(m, from, ObjectBytes(x.HeadFields()))
    ensures m(from) == 0 && x.code == SignedQuad(m, from + 1) && TextAt(m, from + 5, x.message)
    ensures |ObjectBytes(x.HeadFields())| == 5 + TextSize(x.message)
  {
    hide ObjectBytes, Placed, WellFormed, TextBytesOf, TextAt, SignedQuad, GenericResponse.HeadFields;
    HeadWire(x);
    var a: seq<Byte> := [0, x.code % 256, x.code / 256 % 256, x.code / 0x1_0000 % 256, x.code / 0x100_0000 % 256];
    PlacedConcat(m, from, a, TextBytesOf(x.message));
    TextSizes(x.message);
    ByteAt(m, from, a, 0);
    QuadAt(m, from, a, 1, x.code);
    TextPlaced(m, from + 5, x.message);
  }

  /** A response written to a stream and read from it into a new object is the same response,
      up to the cap on the list; reading stops where the rest of the stream begins. */
  method Transmit(response: GenericResponse, rest: seq<Byte>) returns (received: GenericResponse, ok: bool,
          buf: nat, count: int)
    requires response.Valid()
    ensures ok && received.Valid() && received.View() == CappedResponse(response.View())
    ensures ResponseFits(response.View())
    ensures buf == |ResponseBytes(response.View())| && count == |rest| + ResponseNulls(response.View())
  {
    hide ResponseBytes, ReadResponse, ResponseFits, ResponseNulls, CappedResponse;
    hide GenericResponse.View, GenericResponse.Valid;
    ghost var view, owned := response.View(), response.Owned();
    var bytes := Sent(response);
    var sent := bytes + rest;
    var m: Memory := (p: nat) => if p < |sent| then sent[p] else 0;
    NewResponseKinds();
    ResponsePlaced(m, 0, view);
    ResponseNeedBytes(view);
    ResponseReadsBack(m, Cursor(0, |sent|), view, Response(NEW_HEAD, None));
    received, ok, buf, count := Received(m, |sent|);
    assert response.Owned() == owned;
    assert response.View() == view;
  }

  method Sent(response: GenericResponse) returns (bytes: seq<Byte>)
    requires response.Valid()
    ensures response.Valid() && response.View() == old(response.View()) && response.Owned() == old(response.Owned())
    ensures ResponseFits(response.View()) && bytes == ResponseBytes(response.View())
  {
    hide ResponseBytes, ResponseFits, GenericResponse.View, GenericResponse.Valid;
    ghost var view, owned := response.View(), response.Owned();
    var s := new Stream();
    assert s !in owned && response.Owned() == owned;
    assert response.Valid() && response.View() == view;
    response.Serialize(s);
    bytes := s.bytes;
  }

  method Received(m: Memory, size: nat) returns (received: GenericResponse, ok: bool, buf: nat, count: int)
    ensures received.Valid()
    ensures ReadResponse(m, Cursor(0, size), Response(NEW_HEAD, None)) == Read(ok, received.View(), Cursor(buf, count))
  {
    hide ReadResponse, GenericResponse.View, GenericResponse.Valid, TextAt, SignedQuad;
    received := new GenericResponse();
    ok, buf, count := received.Deserialize(m, 0, size);
  }

  lemma NewResponseKinds()
    ensures SameKinds(NEW_HEAD, NEW_HEAD)
  {
  }

  /** An optional object: a mark of null or the object. */
  method PutServer(item: XiYouGameServer?, s: Stream)
    requires item != null ==> item.Valid()
    modifies s
    ensures ServerFits(ServerView(item)) && s.bytes == old(s.bytes) + ServerBytes(ServerView(item))
    ensures item == null ==> s.bytes == old(s.bytes) + [1]
  {
    if item == null {
      s.Put(1);
    } else {
      ServerFitsItsKind(item);
      item.Serialize(s);
    }
  }

  lemma ViewsFit(list: seq<XiYouGameServer?>)
    requires AllValid(list)
    ensures ListFits(ServerViews(list))
  {
    hide ServerViews, ServerFits, XiYouGameServer.View, XiYouGameServer.Valid;
    forall i | 0 <= i < |list| ensures ServerFits(ServerViews(list)[i]) {
      if list[i] != null {
        ServerFitsItsKind(list[i]);
      } else {
        NullFits();
      }
    }
  }

  lemma NullFits()
    ensures ServerFits(None)
  {
  }

  lemma WroteItem(done: seq<Byte>, list: seq<Server>, k: nat, whole: seq<Byte>)
    requires ListFits(list) && k < |list| && done + ItemsBytes(list[k..]) == whole
    ensures (done + ServerBytes(list[k])) + ItemsBytes(list[k + 1..]) == whole
  {
    assert list[k..][1..] == list[k + 1..];
    T.Assoc(done, ServerBytes(list[k]), ItemsBytes(list[k + 1..]));
  }
}

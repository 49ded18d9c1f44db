/** The nested messages of xiyousdk/proto as values: a response carries an optional login, a
    login an optional server and a list of optional servers. What Deserialize and Serialize
    of the three classes do, and that reading undoes writing. */
module LoginCodec {
  import opened Common
  import opened Codec

  /** The fields of a new XiYouGameServer. */
  const NEW_SERVER: seq<Field> :=
    [Text(None), Num(1, 0), Num(1, 0), Text(None), Num(1, 0), Num(4, 0), Num(4, 0), Text(None)]

  /** The texts of a new LoginAccountResponse. */
  const NEW_TEXTS: seq<Field> := [Text(None), Text(None), Text(None), Text(None)]

  /** Code and Message of a new GenericResponse. */
  const NEW_HEAD: seq<Field> := [Num(4, 0), Text(None)]

  type Server = Option<seq<Field>>

  datatype Login = Login(texts: seq<Field>, server: Server, servers: Option<seq<Server>>)

  datatype Response = Response(head: seq<Field>, tag: Option<Login>)

  const NEW_LOGIN := Login(NEW_TEXTS, None, None)

  /** The longest list that is written. */
  const MAX_LIST := 0xfffe

  ghost predicate ServerFits(s: Server) {
    s.Some? ==> AllFit(s.value) && SameKinds(s.value, NEW_SERVER)
  }

  ghost predicate ListFits(list: seq<Server>) {
    forall i :: 0 <= i < |list| ==> ServerFits(list[i])
  }

  ghost predicate LoginFits(v: Login) {
    && AllFit(v.texts) && SameKinds(v.texts, NEW_TEXTS)
    && ServerFits(v.server)
    && (v.servers.Some? ==> ListFits(v.servers.value))
  }

  ghost predicate ResponseFits(v: Response) {
    AllFit(v.head) && SameKinds(v.head, NEW_HEAD) && (v.tag.Some? ==> LoginFits(v.tag.value))
  }

  // ---------------------------------------------------------------- writing

  ghost function ServerBytes(s: Server): seq<Byte>
    requires ServerFits(s)
  {
    if s.None? then [1] else ObjectBytes(s.value)
  }

  ghost function ItemsBytes(list: seq<Server>): seq<Byte>
    requires ListFits(list)
  {
    if list == [] then [] else ServerBytes(list[0]) + ItemsBytes(list[1..])
  }

  /** The part of a list that is written. */
  function Capped(list: seq<Server>): (r: seq<Server>)
    ensures |r| <= MAX_LIST && r <= list
    ensures |list| <= MAX_LIST ==> r == list
  {
    if |list| >= NULL_LENGTH then list[..MAX_LIST] else list
  }

  ghost function ListBytes(servers: Option<seq<Server>>): seq<Byte>
    requires servers.Some? ==> ListFits(servers.value)
  {
    if servers.None? then Bytes(2, NULL_LENGTH)
    else Bytes(2, |Capped(servers.value)|) + ItemsBytes(Capped(servers.value))
  }

  /** A missing object goes out as one byte, the number one. */
  lemma NullWire(v: Response)
    requires ResponseFits(v)
    ensures ServerBytes(None) == [1]
    ensures v.tag.None? ==> ResponseBytes(v) == ObjectBytes(v.head) + [1]
  {
  }

  /** Null is the length 0xffff; of 65535 elements and more, 65534 go out. */
  lemma ListWire(servers: Option<seq<Server>>)
    requires servers.Some? ==> ListFits(servers.value)
    ensures servers.None? ==> ListBytes(servers) == [0xff, 0xff]
    ensures servers.Some? ==>
              var list := servers.value;
              var n := if |list| >= 65535 then 65534 else |list|;
              ListBytes(servers) == [n % 256, n / 256] + ItemsBytes(list[..n])
  {
    hide Bytes, ItemsBytes;
    TwoBytes(NULL_LENGTH);
    if servers.Some? {
      TwoBytes(|Capped(servers.value)|);
      assert servers.value[..|servers.value|] == servers.value;
    }
  }

  ghost function LoginBytes(v: Login): seq<Byte>
    requires LoginFits(v)
  {
    ObjectBytes(v.texts) + (ServerBytes(v.server) + ListBytes(v.servers))
  }

  ghost function ResponseBytes(v: Response): seq<Byte>
    requires ResponseFits(v)
  {
    ObjectBytes(v.head) + (if v.tag.None? then [1] else LoginBytes(v.tag.value))
  }

  // ---------------------------------------------------------------- reading

  /** A nested object over the one that is there, or over a new one. The mark of a missing
      object is not counted. */
  function ReadServer(m: Memory, c: Cursor, old_: Server): Read<Server> {
    if m(c.buf) != 0 then Read(true, None, Cursor(c.buf + 1, c.count))
    else
      var r := ReadObject(m, c, if old_.Some? then old_.value else NEW_SERVER);
      Read(r.ok, Some(r.value), r.at)
  }

  /** The elements of a list from the k-th on. */
  function ReadItems(m: Memory, c: Cursor, list: seq<Server>, k: nat): (r: Read<seq<Server>>)
    requires k <= |list|
    ensures |r.value| == |list|
    decreases |list| - k
  {
    if k == |list| then Read(true, list, c)
    else if c.count - 1 < 0 then Read(false, list, c)
    else
      var r := ReadServer(m, c, None);
      if r.ok then ReadItems(m, r.at, list[k := r.value], k + 1) else Read(false, list[k := r.value], r.at)
  }

  lemma ItemsStep(m: Memory, c: Cursor, list: seq<Server>, k: nat)
    requires k < |list|
    ensures ReadItems(m, c, list, k) ==
            if c.count - 1 < 0 then Read(false, list, c)
            else if m(c.buf) != 0 then ReadItems(m, Cursor(c.buf + 1, c.count), list[k := None], k + 1)
            else
              var r := ReadObject(m, c, NEW_SERVER);
              if r.ok then ReadItems(m, r.at, list[k := Some(r.value)], k + 1)
              else Read(false, list[k := Some(r.value)], r.at)
  {
    hide ReadObject;
  }

  lemma ItemsDone(m: Memory, c: Cursor, list: seq<Server>)
    ensures ReadItems(m, c, list, |list|) == Read(true, list, c)
  {
  }

  /** The list, or null; a list that ends early is kept as far as it was read. */
  function ReadList(m: Memory, c: Cursor, old_: Option<seq<Server>>): Read<Option<seq<Server>>> {
    var after := c.count - 2;
    if after < 0 then Read(false, old_, Cursor(c.buf, after))
    else
      var len := Number(m, c.buf, 2);
      if len == NULL_LENGTH then Read(true, None, Cursor(c.buf + 2, after))
      else
        var r := ReadItems(m, Cursor(c.buf + 2, after), seq(len, _ => None), 0);
        Read(r.ok, Some(r.value), r.at)
  }

  /** LoginAccountResponse::Deserialize. The result of reading the server is not looked at. */
  function ReadLogin(m: Memory, c: Cursor, old_: Login): Read<Login> {
    var texts := ReadObject(m, c, old_.texts);
    if !texts.ok || texts.at.count - 1 < 0 then Read(false, old_.(texts := texts.value), texts.at)
    else
      var server := ReadServer(m, texts.at, old_.server);
      var list := ReadList(m, server.at, old_.servers);
      Read(list.ok, Login(texts.value, server.value, list.value), list.at)
  }

  /** GenericResponse::Deserialize. The result of reading the tag is not looked at. */
  function ReadResponse(m: Memory, c: Cursor, old_: Response): Read<Response> {
    var head := ReadObject(m, c, old_.head);
    if !head.ok || head.at.count - 1 < 0 then Read(false, old_.(head := head.value), head.at)
    else if m(head.at.buf) != 0 then Read(true, Response(head.value, None), Cursor(head.at.buf + 1, head.at.count))
    else
      var tag := ReadLogin(m, head.at, if old_.tag.Some? then old_.tag.value else NEW_LOGIN);
      Read(true, Response(head.value, Some(tag.value)), tag.at)
  }

  // ---------------------------------------------------------------- marks of null

  function Null(s: Server): nat {
    if s.None? then 1 else 0
  }

  /** The number of nulls in a list. */
  function Nulls(list: seq<Server>): nat {
    if list == [] then 0 else Null(list[0]) + Nulls(list[1..])
  }

  /** The nulls of a list as it is written. */
  function ListNulls(servers: Option<seq<Server>>): nat {
    if servers.Some? then Nulls(Capped(servers.value)) else 0
  }

  /** The number of nested objects that are written as a mark of null. */
  function LoginNulls(v: Login): nat {
    Null(v.server) + ListNulls(v.servers)
  }

  function ResponseNulls(v: Response): nat {
    if v.tag.Some? then LoginNulls(v.tag.value) else 1
  }

  function CappedLogin(v: Login): Login {
    if v.servers.Some? then v.(servers := Some(Capped(v.servers.value))) else v
  }

  function CappedResponse(v: Response): Response {
    if v.tag.Some? then v.(tag := Some(CappedLogin(v.tag.value))) else v
  }

  /** The cursor behind n bytes of which some are marks of null. */
  function Past(c: Cursor, n: nat, nulls: nat): Cursor {
    Cursor(c.buf + n, c.count - n + nulls)
  }

  // ---------------------------------------------------------------- what stands in memory

  /** The server stands in memory, or any byte but zero for a missing one. */
  ghost predicate ServerStands(m: Memory, p: nat, s: Server)
    requires ServerFits(s)
  {
    if s.None? then m(p) != 0 else Placed(m, p, ObjectBytes(s.value))
  }

  ghost predicate ItemsStand(m: Memory, p: nat, list: seq<Server>)
    requires ListFits(list)
    decreases |list|
  {
    list == [] || (ServerStands(m, p, list[0]) && ItemsStand(m, p + |ServerBytes(list[0])|, list[1..]))
  }

  ghost predicate ListStands(m: Memory, p: nat, servers: Option<seq<Server>>)
    requires servers.Some? ==> ListFits(servers.value)
  {
    match servers
    case None => Placed(m, p, Bytes(2, NULL_LENGTH))
    case Some(list) => Placed(m, p, Bytes(2, |Capped(list)|)) && ItemsStand(m, p + 2, Capped(list))
  }

  /** The login stands in memory as it is written, but for the values of its marks of null. */
  ghost predicate LoginStands(m: Memory, p: nat, v: Login)
    requires LoginFits(v)
  {
    var server := p + |ObjectBytes(v.texts)|;
    && Placed(m, p, ObjectBytes(v.texts)) && ServerStands(m, server, v.server)
    && ListStands(m, server + |ServerBytes(v.server)|, v.servers)
  }

  ghost predicate ResponseStands(m: Memory, p: nat, v: Response)
    requires ResponseFits(v)
  {
    var tag := p + |ObjectBytes(v.head)|;
    && Placed(m, p, ObjectBytes(v.head))
    && if v.tag.None? then m(tag) != 0 else LoginStands(m, tag, v.tag.value)
  }

  lemma ServerPlaced(m: Memory, p: nat, s: Server)
    requires ServerFits(s) && Placed(m, p, ServerBytes(s))
    ensures ServerStands(m, p, s)
  {
    assert s.None? ==> m(p + 0) == [1][0];
  }

  lemma {:induction false} ItemsPlaced(m: Memory, p: nat, list: seq<Server>)
    requires ListFits(list) && Placed(m, p, ItemsBytes(list))
    ensures ItemsStand(m, p, list)
    decreases |list|
  {
    hide Placed, ServerBytes, ServerStands, ServerFits;
    if list != [] {
      PlacedConcat(m, p, ServerBytes(list[0]), ItemsBytes(list[1..]));
      ServerPlaced(m, p, list[0]);
      ItemsPlaced(m, p + |ServerBytes(list[0])|, list[1..]);
    }
  }

  lemma LoginPlaced(m: Memory, p: nat, v: Login)
    requires LoginFits(v) && Placed(m, p, LoginBytes(v))
    ensures LoginStands(m, p, v)
  {
    hide Placed, ObjectBytes, ServerBytes, ItemsBytes, ItemsStand, ServerStands, Capped, Bytes, ServerFits;
    var texts, server, list := ObjectBytes(v.texts), ServerBytes(v.server), ListBytes(v.servers);
    PlacedConcat(m, p, texts, server + list);
    PlacedConcat(m, p + |texts|, server, list);
    ServerPlaced(m, p + |texts|, v.server);
    if v.servers.Some? {
      var items, at := Capped(v.servers.value), p + |texts| + |server|;
      PlacedConcat(m, at, Bytes(2, |items|), ItemsBytes(items));
      ItemsPlaced(m, at + 2, items);
    }
  }

  /** A response that was written stands in memory. */
  lemma ResponsePlaced(m: Memory, p: nat, v: Response)
    requires ResponseFits(v) && Placed(m, p, ResponseBytes(v))
    ensures ResponseStands(m, p, v)
  {
    hide Placed, ObjectBytes, LoginBytes, LoginStands, LoginFits;
    var head, tag := ObjectBytes(v.head), if v.tag.None? then [1] else LoginBytes(v.tag.value);
    PlacedConcat(m, p, head, tag);
    if v.tag.None? {
      FirstByte(m, p + |head|, [1]);
    } else {
      LoginPlaced(m, p + |head|, v.tag.value);
    }
  }

  lemma ServerIsThere(m: Memory, p: nat) returns (s: Server)
    ensures ServerFits(s) && ServerStands(m, p, s)
  {
    if m(p) != 0 {
      s := None;
    } else {
      var fields := ObjectIsThere(m, p, NEW_SERVER);
      s := Some(fields);
    }
  }

  lemma {:induction false} ItemsAreThere(m: Memory, p: nat, n: nat) returns (list: seq<Server>)
    ensures |list| == n && ListFits(list) && ItemsStand(m, p, list)
    decreases n
  {
    hide ServerBytes, ServerStands, ServerFits;
    if n == 0 {
      list := [];
    } else {
      var s := ServerIsThere(m, p);
      var rest := ItemsAreThere(m, p + |ServerBytes(s)|, n - 1);
      list := [s] + rest;
      assert list[1..] == rest;
    }
  }

  lemma ListIsThere(m: Memory, p: nat) returns (servers: Option<seq<Server>>)
    ensures servers.Some? ==> ListFits(servers.value) && Capped(servers.value) == servers.value
    ensures ListStands(m, p, servers)
  {
    hide Number, Bytes, Power256, Placed, ItemsStand, ListFits;
    TextLengthBound();
    NumberBelow(m, p, 2);
    NumberIsBytes(m, p, 2, Number(m, p, 2));
    if Number(m, p, 2) == NULL_LENGTH {
      servers := None;
    } else {
      var list := ItemsAreThere(m, p + 2, Number(m, p, 2));
      servers := Some(list);
    }
  }

  /** Behind a zero byte there is a login, whatever the bytes are. */
  lemma LoginIsThere(m: Memory, p: nat) returns (v: Login)
    requires m(p) == 0
    ensures LoginFits(v) && CappedLogin(v) == v && LoginStands(m, p, v)
  {
    hide Placed, ObjectBytes, ServerBytes, ServerStands, ListStands, Capped, AllFit, SameKinds, ServerFits, ListFits;
    var texts := ObjectIsThere(m, p, NEW_TEXTS);
    var server := ServerIsThere(m, p + |ObjectBytes(texts)|);
    var servers := ListIsThere(m, p + |ObjectBytes(texts)| + |ServerBytes(server)|);
    v := Login(texts, server, servers);
  }

  /** And a response. */
  lemma ResponseIsThere(m: Memory, p: nat) returns (v: Response)
    requires m(p) == 0
    ensures ResponseFits(v) && CappedResponse(v) == v && ResponseStands(m, p, v)
  {
    hide Placed, ObjectBytes, LoginStands, AllFit, SameKinds, LoginFits, CappedLogin;
    var head := ObjectIsThere(m, p, NEW_HEAD);
    var tag := p + |ObjectBytes(head)|;
    if m(tag) != 0 {
      v := Response(head, None);
    } else {
      var login := LoginIsThere(m, tag);
      v := Response(head, Some(login));
    }
  }

  // ---------------------------------------------------------------- how much count a message needs

  /** A null needs a count of one, of which it takes nothing away. */
  ghost function ItemsNeed(list: seq<Server>): nat
    requires ListFits(list)
  {
    if list == [] then 0
    else
      var rest := ItemsNeed(list[1..]);
      if list[0].Some? then |ServerBytes(list[0])| + rest else if rest == 0 then 1 else rest
  }

  ghost function ServerNeed(s: Server): nat
    requires ServerFits(s)
  {
    if s.None? then 0 else |ServerBytes(s)|
  }

  ghost function ListNeed(servers: Option<seq<Server>>): nat
    requires servers.Some? ==> ListFits(servers.value)
  {
    2 + if servers.Some? then ItemsNeed(Capped(servers.value)) else 0
  }

  ghost function LoginNeed(v: Login): nat
    requires LoginFits(v)
  {
    |ObjectBytes(v.texts)| + ServerNeed(v.server) + ListNeed(v.servers)
  }

  ghost function ResponseNeed(v: Response): nat
    requires ResponseFits(v)
  {
    |ObjectBytes(v.head)| + if v.tag.Some? then LoginNeed(v.tag.value) else 1
  }

  predicate EndsInNull(list: seq<Server>) {
    list != [] && list[|list| - 1].None?
  }

  /** All bytes are needed but those of the nulls, and one more when the last element is null. */
  lemma {:induction false} ItemsNeedBytes(list: seq<Server>)
    requires ListFits(list)
    ensures ItemsNeed(list) == |ItemsBytes(list)| - Nulls(list) + if EndsInNull(list) then 1 else 0
    decreases |list|
  {
    hide ServerFits, ServerBytes, EndsInNull;
    EndOfRest(list);
    if list != [] {
      ItemsNeedBytes(list[1..]);
      ServerIsNotEmpty(list[0]);
      if list[1..] != [] {
        ItemsNotNeedless(list[1..]);
      }
    }
  }

  lemma EndOfRest(list: seq<Server>)
    ensures EndsInNull(list) <==> list != [] && if list[1..] == [] then list[0].None? else EndsInNull(list[1..])
  {
  }

  lemma {:induction false} ItemsNotNeedless(list: seq<Server>)
    requires ListFits(list) && list != []
    ensures ItemsNeed(list) >= 1
  {
    ServerIsNotEmpty(list[0]);
  }

  /** A login needs as much count as it has bytes, except those of its marks of null; when a null
      ends its list, one more. */
  lemma LoginNeedBytes(v: Login)
    requires LoginFits(v)
    ensures LoginNeed(v) == |LoginBytes(v)| - LoginNulls(v)
                            + if v.servers.Some? && EndsInNull(Capped(v.servers.value)) then 1 else 0
    ensures LoginNeed(v) <= |LoginBytes(v)|
  {
    hide ObjectBytes, ItemsBytes, ItemsNeed, Nulls, Capped, ServerFits;
    if v.servers.Some? {
      ItemsNeedBytes(Capped(v.servers.value));
      NullsAreElements(Capped(v.servers.value));
    }
  }

  lemma ResponseNeedBytes(v: Response)
    requires ResponseFits(v)
    ensures ResponseNeed(v) <= |ResponseBytes(v)|
  {
    hide LoginNeed, LoginBytes, LoginFits;
    if v.tag.Some? {
      LoginNeedBytes(v.tag.value);
    }
  }

  lemma {:induction false} NullsAreElements(list: seq<Server>)
    ensures EndsInNull(list) ==> Nulls(list) >= 1
  {
    if list != [] {
      NullsAreElements(list[1..]);
    }
  }

  // ---------------------------------------------------------------- round trip

  /** A server that stands in memory is read exactly when the count covers it. */
  lemma ServerReadsBack(m: Memory, c: Cursor, s: Server, old_: Server)
    requires ServerFits(s) && ServerKinds(old_) && ServerStands(m, c.buf, s) && c.count >= 0
    ensures var r := ReadServer(m, c, old_);
            && (c.count >= ServerNeed(s) ==> r == Read(true, s, Past(c, |ServerBytes(s)|, Null(s))))
            && (c.count < ServerNeed(s) ==> !r.ok && r.at.count < 0)
  {
    hide ReadObject, FieldsBytes;
    if s.Some? {
      assert m(c.buf + 0) == ObjectBytes(s.value)[0];
      var before := if old_.Some? then old_.value else NEW_SERVER;
      BothOfKinds(s.value, before, NEW_SERVER);
      ObjectReadsBack(m, c, s.value, before);
      KindsAreReadable(before, NEW_SERVER);
      ObjectSpells(m, c, before);
    }
  }

  lemma {:induction false} ItemsReadBack(m: Memory, c: Cursor, list: seq<Server>, now: seq<Server>, k: nat)
    requires ListFits(list) && |now| == |list| && k <= |list| && c.count >= 0
    requires forall i :: 0 <= i < k ==> now[i] == list[i]
    requires ItemsStand(m, c.buf, list[k..])
    ensures var r, rest := ReadItems(m, c, now, k), list[k..];
            && (c.count >= ItemsNeed(rest) ==> r == Read(true, list, Past(c, |ItemsBytes(rest)|, Nulls(rest))))
            && (c.count < ItemsNeed(rest) ==> !r.ok)
    decreases |list| - k
  {
    hide ReadServer, ServerBytes, ServerStands, ServerFits;
    if k == |list| {
      assert now == list;
    } else {
      var s, rest := list[k], list[k..][1..];
      assert rest == list[k + 1..];
      ServerIsNotEmpty(s);
      ServerReadsBack(m, c, s, None);
      var r := ReadServer(m, c, None);
      if c.count >= 1 && r.ok {
        ItemsReadBack(m, r.at, list, now[k := s], k + 1);
      }
    }
  }

  lemma ServerIsNotEmpty(s: Server)
    requires ServerFits(s)
    ensures |ServerBytes(s)| >= 1 && (s.None? ==> |ServerBytes(s)| == 1)
  {
  }

  lemma ListReadsBack(m: Memory, c: Cursor, servers: Option<seq<Server>>, old_: Option<seq<Server>>)
    requires servers.Some? ==> ListFits(servers.value)
    requires ListStands(m, c.buf, servers)
    ensures var r := ReadList(m, c, old_);
            && (c.count >= ListNeed(servers) ==>
                  r == Read(true, if servers.Some? then Some(Capped(servers.value)) else None,
                            Past(c, |ListBytes(servers)|, ListNulls(servers))))
            && (c.count < ListNeed(servers) ==> !r.ok)
  {
    hide ReadItems, ItemsBytes, ItemsNeed, ItemsStand, Number, Bytes, Placed, Power256, Capped, Nulls;
    TextLengthBound();
    if servers.None? {
      NumberIsBytes(m, c.buf, 2, NULL_LENGTH);
    } else {
      var list := Capped(servers.value);
      NumberIsBytes(m, c.buf, 2, |list|);
      assert list[0..] == list;
      if c.count >= 2 {
        ItemsReadBack(m, Cursor(c.buf + 2, c.count - 2), list, seq(|list|, _ => None), 0);
      }
    }
  }

  /** A login that stands in memory is read exactly when the count is as much as it needs. */
  lemma LoginReadsBack(m: Memory, c: Cursor, v: Login, old_: Login)
    requires LoginFits(v) && LoginKinds(old_) && LoginStands(m, c.buf, v)
    ensures var r := ReadLogin(m, c, old_);
            && (c.count >= LoginNeed(v) ==> r == Read(true, CappedLogin(v), Past(c, |LoginBytes(v)|, LoginNulls(v))))
            && (c.count < LoginNeed(v) ==> !r.ok)
  {
    hide ReadObject, ReadServer, ReadList, ServerBytes, ObjectBytes, ListBytes, ServerStands, ListStands, Placed,
      Capped, ListNulls, ItemsNeed, ServerFits, ListFits;
    BothOfKinds(v.texts, old_.texts, NEW_TEXTS);
    ObjectReadsBack(m, c, v.texts, old_.texts);
    var texts := ReadObject(m, c, old_.texts);
    if texts.ok && texts.at.count >= 1 {
      ServerReadsBack(m, texts.at, v.server, old_.server);
      ServerIsNotEmpty(v.server);
      var server := ReadServer(m, texts.at, old_.server);
      if server.ok {
        ListReadsBack(m, server.at, v.servers, old_.servers);
      } else {
        ListAccount(m, server.at, old_.servers);
      }
    }
  }

  /** Deserialize(Serialize(v) + anything) rebuilds v, up to the cap on the list, and leaves the
      cursor behind v, exactly when the count is as much as v needs; with less it still reports
      success, as long as the count covers the response's own part and one byte. */
  lemma ResponseReadsBack(m: Memory, c: Cursor, v: Response, old_: Response)
    requires ResponseFits(v) && SameKinds(old_.head, NEW_HEAD) && (old_.tag.Some? ==> LoginKinds(old_.tag.value))
    requires ResponseStands(m, c.buf, v)
    ensures var r := ReadResponse(m, c, old_);
            && (r.ok <==> c.count >= |ObjectBytes(v.head)| + 1)
            && (Accounted(c, r) <==> c.count >= ResponseNeed(v))
            && (c.count >= ResponseNeed(v) ==>
                  r == Read(true, CappedResponse(v), Past(c, |ResponseBytes(v)|, ResponseNulls(v))))
  {
    hide ReadObject, ReadLogin, LoginBytes, LoginNeed, LoginStands, FieldsBytes, Placed, LoginFits, LoginNulls,
      CappedLogin;
    BothOfKinds(v.head, old_.head, NEW_HEAD);
    ObjectReadsBack(m, c, v.head, old_.head);
    KindsAreReadable(old_.head, NEW_HEAD);
    ObjectGap(m, c, old_.head);
    FirstByte(m, c.buf, ObjectBytes(v.head));
    ResponseAccount(m, c, old_);
    var head, r := ReadObject(m, c, old_.head), ReadResponse(m, c, old_);
    if ResponseFits(r.value) && r.value.tag.Some? {
      LoginIsNotEmpty(r.value.tag.value);
    }
    if head.ok && v.tag.Some? {
      LoginIsNotEmpty(v.tag.value);
      LoginStandsAtZero(m, head.at.buf, v.tag.value);
      LoginReadsBack(m, head.at, v.tag.value, NEW_LOGIN);
      LoginReadsBack(m, head.at, v.tag.value, if old_.tag.Some? then old_.tag.value else NEW_LOGIN);
    }
  }

  lemma LoginStandsAtZero(m: Memory, p: nat, v: Login)
    requires LoginFits(v) && LoginStands(m, p, v)
    ensures m(p) == 0
  {
    hide Placed, ServerStands, ListStands;
    FirstByte(m, p, ObjectBytes(v.texts));
  }

  lemma LoginIsNotEmpty(v: Login)
    requires LoginFits(v)
    ensures LoginBytes(v) != [] && LoginNeed(v) >= 1
  {
  }

  // ---------------------------------------------------------------- arbitrary input

  ghost predicate ServerKinds(s: Server) {
    s.Some? ==> SameKinds(s.value, NEW_SERVER)
  }

  ghost predicate LoginKinds(v: Login) {
    SameKinds(v.texts, NEW_TEXTS) && ServerKinds(v.server)
  }

  /** A server read with success can be written, and its bytes are as many as were consumed.
      A failure leaves the count negative. */
  lemma ServerAccount(m: Memory, c: Cursor, old_: Server)
    requires ServerKinds(old_)
    ensures var r := ReadServer(m, c, old_);
            && ServerKinds(r.value)
            && (r.ok ==> ServerFits(r.value) && r.at == Past(c, |ServerBytes(r.value)|, Null(r.value)))
            && (!r.ok ==> r.at.count < 0)
  {
    hide ReadObject, ObjectBytes, AllFit;
    if m(c.buf) == 0 {
      var before := if old_.Some? then old_.value else NEW_SERVER;
      KindsAreReadable(before, NEW_SERVER);
      ObjectSpells(m, c, before);
      var r := ReadObject(m, c, before);
      SameKindsTurn(before, r.value, NEW_SERVER);
    }
  }

  lemma KindsAreReadable(fields: seq<Field>, kinds: seq<Field>)
    requires SameKinds(fields, kinds) && Readable(kinds)
    ensures Readable(fields)
  {
    forall k | 0 <= k < |fields| && fields[k].Num? ensures fields[k].width > 0 {
      assert SameKind(fields[k], kinds[k]);
    }
  }

  lemma SameKindsTurn(old_: seq<Field>, now: seq<Field>, kinds: seq<Field>)
    requires SameKinds(old_, kinds) && SameKinds(old_, now)
    ensures SameKinds(now, kinds)
  {
    forall k | 0 <= k < |now| ensures SameKind(now[k], kinds[k]) {
      assert SameKind(old_[k], kinds[k]) && SameKind(old_[k], now[k]);
    }
  }

  lemma {:induction false} ItemsAccount(m: Memory, c: Cursor, now: seq<Server>, k: nat)
    requires k <= |now|
    ensures var r := ReadItems(m, c, now, k);
            && (forall i :: 0 <= i < k ==> r.value[i] == now[i])
            && (r.ok ==>
                  ListFits(r.value[k..]) && r.at == Past(c, |ItemsBytes(r.value[k..])|, Nulls(r.value[k..])))
    decreases |now| - k
  {
    hide ReadServer, ServerBytes, ServerFits;
    if k < |now| && c.count >= 1 {
      var s := ReadServer(m, c, None);
      ServerAccount(m, c, None);
      if s.ok {
        ItemsAccount(m, s.at, now[k := s.value], k + 1);
        var r := ReadItems(m, c, now, k);
        if r.ok {
          assert r.value[k..][1..] == r.value[k + 1..];
          assert r.value[k..] == [s.value] + r.value[k + 1..];
        }
      }
    }
  }

  lemma ListAccount(m: Memory, c: Cursor, old_: Option<seq<Server>>)
    ensures var r := ReadList(m, c, old_);
            r.ok && r.value.Some? ==>
              && ListFits(r.value.value) && Capped(r.value.value) == r.value.value
              && r.at == Past(c, |ListBytes(r.value)|, Nulls(r.value.value))
    ensures var r := ReadList(m, c, old_);
            r.ok && r.value.None? ==> r.at == Past(c, |ListBytes(r.value)|, 0)
    ensures c.count < 0 ==> !ReadList(m, c, old_).ok
  {
    hide ReadItems, ItemsBytes, Number, Power256, Nulls, ListFits;
    TextLengthBound();
    NumberBelow(m, c.buf, 2);
    var len := Number(m, c.buf, 2);
    if c.count >= 2 && len != NULL_LENGTH {
      var start := Cursor(c.buf + 2, c.count - 2);
      ItemsAccount(m, start, seq(len, _ => None), 0);
      var list := ReadItems(m, start, seq(len, _ => None), 0).value;
      assert list[0..] == list;
    }
  }

  /** A login read with success, from any bytes and over any login, can be written; its bytes
      are as many as were consumed, and the count went down by them except the marks of
      null. That the server's result is not looked at does no harm: its failure would have
      made the list fail. */
  lemma LoginAccount(m: Memory, c: Cursor, old_: Login)
    requires LoginKinds(old_)
    ensures var r := ReadLogin(m, c, old_);
            r.ok ==>
              && LoginFits(r.value) && CappedLogin(r.value) == r.value
              && r.at == Past(c, |LoginBytes(r.value)|, LoginNulls(r.value))
              && ReadServer(m, ReadObject(m, c, old_.texts).at, old_.server).ok
  {
    hide ReadObject, ReadServer, ReadList, ServerBytes, ObjectBytes, ListBytes, Capped, Nulls, AllFit, ServerFits,
      ListFits;
    var texts := ReadObject(m, c, old_.texts);
    KindsAreReadable(old_.texts, NEW_TEXTS);
    ObjectSpells(m, c, old_.texts);
    SameKindsTurn(old_.texts, texts.value, NEW_TEXTS);
    ServerAccount(m, texts.at, old_.server);
    var server := ReadServer(m, texts.at, old_.server);
    ListAccount(m, server.at, old_.servers);
  }

  /** What a successful read leaves does not depend on the login that was there before. */
  lemma LoginIgnoresOld(m: Memory, c: Cursor, a: Login, b: Login)
    requires LoginKinds(a) && LoginKinds(b)
    ensures ReadLogin(m, c, a).ok ==> ReadLogin(m, c, b) == ReadLogin(m, c, a)
  {
    hide ReadLogin, LoginStands, LoginFits, LoginNeed;
    if ReadLogin(m, c, a).ok {
      LoginStartsAtZero(m, c, a);
      var v := LoginIsThere(m, c.buf);
      LoginReadsBack(m, c, v, a);
      LoginReadsBack(m, c, v, b);
    }
  }

  lemma LoginStartsAtZero(m: Memory, c: Cursor, old_: Login)
    requires ReadLogin(m, c, old_).ok
    ensures m(c.buf) == 0
  {
  }

  lemma BothOfKinds(a: seq<Field>, b: seq<Field>, kinds: seq<Field>)
    requires SameKinds(a, kinds) && SameKinds(b, kinds)
    ensures SameKinds(a, b)
  {
    forall k | 0 <= k < |a| ensures SameKind(a[k], b[k]) {
      assert SameKind(a[k], kinds[k]) && SameKind(b[k], kinds[k]);
    }
  }

  /** A read of n bytes with some null marks cannot have ended here: too few bytes were passed,
      or too many were counted. */
  ghost predicate Astray(c: Cursor, at: Cursor, n: nat, nulls: nat) {
    Gap(c, at) < nulls || at.buf < c.buf + n
  }

  lemma ServerGap(m: Memory, c: Cursor, old_: Server)
    requires ServerKinds(old_)
    ensures var r := ReadServer(m, c, old_);
            && r.at.buf >= c.buf && Gap(c, r.at) <= Null(r.value)
            && (!r.ok ==> Gap(c, r.at) < 0)
  {
    hide ReadObject;
    var before := if old_.Some? then old_.value else NEW_SERVER;
    KindsAreReadable(before, NEW_SERVER);
    ObjectGap(m, c, before);
  }

  /** Elements that were not all read do not account for their bytes. */
  lemma {:induction false} ItemsAstray(m: Memory, c: Cursor, now: seq<Server>, k: nat)
    requires k <= |now|
    ensures var r := ReadItems(m, c, now, k);
            !r.ok && ListFits(r.value[k..]) ==> Astray(c, r.at, |ItemsBytes(r.value[k..])|, Nulls(r.value[k..]))
    decreases |now| - k
  {
    hide ReadServer, ServerBytes, ServerFits;
    var r := ReadItems(m, c, now, k);
    if !r.ok && ListFits(r.value[k..]) {
      ItemsAccount(m, c, now, k);
      var rest := r.value[k..];
      assert rest[1..] == r.value[k + 1..];
      assert ServerFits(rest[0]);
      ServerIsNotEmpty(rest[0]);
      if c.count >= 1 {
        ServerAccount(m, c, None);
        ServerGap(m, c, None);
        var s := ReadServer(m, c, None);
        if s.ok {
          ItemsAccount(m, s.at, now[k := s.value], k + 1);
          ItemsAstray(m, s.at, now[k := s.value], k + 1);
        }
      }
    }
  }

  lemma ListAstray(m: Memory, c: Cursor, old_: Option<seq<Server>>)
    ensures var r := ReadList(m, c, old_);
            !r.ok && (r.value.Some? ==> ListFits(r.value.value)) ==>
              Astray(c, r.at, |ListBytes(r.value)|, ListNulls(r.value))
    ensures c.count < 0 ==> ReadList(m, c, old_).at == Cursor(c.buf, c.count - 2)
  {
    hide ReadItems, ItemsBytes, Number, Power256, Nulls, ListFits;
    TextLengthBound();
    NumberBelow(m, c.buf, 2);
    var len := Number(m, c.buf, 2);
    if c.count >= 2 && len != NULL_LENGTH {
      var start := Cursor(c.buf + 2, c.count - 2);
      ItemsAstray(m, start, seq(len, _ => None), 0);
      var list := ReadItems(m, start, seq(len, _ => None), 0).value;
      assert list[0..] == list;
    }
  }

  /** A login that was not read with success does not account for the bytes of what it left. */
  lemma LoginAstray(m: Memory, c: Cursor, old_: Login)
    requires LoginKinds(old_) && m(c.buf) == 0
    ensures var r := ReadLogin(m, c, old_);
            !r.ok && LoginFits(r.value) ==> Astray(c, r.at, |LoginBytes(r.value)|, LoginNulls(r.value))
  {
    hide ReadObject, ReadServer, ReadList, ServerBytes, ObjectBytes, ListBytes, Capped, Nulls, AllFit, ServerFits,
      ListFits;
    var r, texts := ReadLogin(m, c, old_), ReadObject(m, c, old_.texts);
    KindsAreReadable(old_.texts, NEW_TEXTS);
    ObjectSpells(m, c, old_.texts);
    ObjectGap(m, c, old_.texts);
    if !r.ok && LoginFits(r.value) && texts.ok {
      if texts.at.count < 1 {
        ServerIsNotEmpty(r.value.server);
      } else {
        ServerAccount(m, texts.at, old_.server);
        ServerGap(m, texts.at, old_.server);
        ListAstray(m, ReadServer(m, texts.at, old_.server).at, old_.servers);
      }
    }
  }

  /** The bytes and the null marks of a response account for where reading it ended. */
  ghost predicate Accounted(c: Cursor, r: Read<Response>) {
    && ResponseFits(r.value) && CappedResponse(r.value) == r.value
    && r.at == Past(c, |ResponseBytes(r.value)|, ResponseNulls(r.value))
  }

  /** GenericResponse reports success exactly when its own part was read; a tag that is cut
      short goes unnoticed. The response then accounts for the bytes that were consumed
      exactly when the tag, if there is any, was read with success. */
  lemma ResponseAccount(m: Memory, c: Cursor, old_: Response)
    requires SameKinds(old_.head, NEW_HEAD) && (old_.tag.Some? ==> LoginKinds(old_.tag.value))
    ensures var r, head := ReadResponse(m, c, old_), ReadObject(m, c, old_.head);
            && (r.ok <==> head.ok && head.at.count >= 1)
            && (r.ok ==> (Accounted(c, r) <==> m(head.at.buf) != 0 || ReadLogin(m, head.at, NEW_LOGIN).ok))
  {
    hide ReadObject, ReadLogin, LoginBytes, ObjectBytes, LoginFits, LoginNulls, AllFit, CappedLogin;
    KindsAreReadable(old_.head, NEW_HEAD);
    ObjectSpells(m, c, old_.head);
    var head := ReadObject(m, c, old_.head);
    SameKindsTurn(old_.head, head.value, NEW_HEAD);
    var before := if old_.tag.Some? then old_.tag.value else NEW_LOGIN;
    assert LoginKinds(NEW_LOGIN);
    LoginAccount(m, head.at, before);
    LoginIgnoresOld(m, head.at, NEW_LOGIN, before);
    LoginIgnoresOld(m, head.at, before, NEW_LOGIN);
    if m(head.at.buf) == 0 {
      LoginAstray(m, head.at, before);
    }
  }

  // ---------------------------------------------------------------- null marks are not counted

  /** A login is read with success and leaves the cursor outside the counted bytes exactly when
      the count is enough for it but less than its bytes. */
  lemma LoginOverrun(m: Memory, c: Cursor, v: Login, old_: Login)
    requires LoginFits(v) && LoginKinds(old_) && LoginStands(m, c.buf, v)
    ensures var r := ReadLogin(m, c, old_);
            r.ok && r.at.buf > c.buf + c.count <==> LoginNeed(v) <= c.count < |LoginBytes(v)|
  {
    hide ReadLogin, LoginStands, LoginFits, LoginNeed, LoginBytes;
    LoginReadsBack(m, c, v, old_);
  }

  /** The same for a response that is read as a whole. */
  lemma ResponseOverrun(m: Memory, c: Cursor, v: Response, old_: Response)
    requires ResponseFits(v) && SameKinds(old_.head, NEW_HEAD) && (old_.tag.Some? ==> LoginKinds(old_.tag.value))
    requires ResponseStands(m, c.buf, v)
    ensures var r := ReadResponse(m, c, old_);
            Accounted(c, r) && r.at.buf > c.buf + c.count <==> ResponseNeed(v) <= c.count < |ResponseBytes(v)|
  {
    hide ReadResponse, ResponseStands, ResponseFits, ResponseNeed, ResponseBytes, Accounted;
    ResponseReadsBack(m, c, v, old_);
  }

  lemma ServerReach(m: Memory, c: Cursor, old_: Server)
    requires c.count >= 0
    ensures var r := ReadServer(m, c, old_);
            if r.value.None? then r.ok && r.at == Cursor(c.buf + 1, c.count)
            else
              && c.buf <= r.at.buf <= c.buf + c.count
              && if r.ok then r.at.count >= 0 && r.at.buf + r.at.count == c.buf + c.count else r.at.count < 0
  {
    hide ReadObject;
    ObjectReach(m, c, if old_.Some? then old_.value else NEW_SERVER);
  }

  /** Each element passes one byte that is not counted, at most, and the last needs one that is. */
  lemma {:induction false} ItemsReach(m: Memory, c: Cursor, now: seq<Server>, k: nat)
    requires k <= |now| && c.count >= 0
    ensures var at := ReadItems(m, c, now, k).at;
            c.buf <= at.buf <= c.buf + c.count + (if k < |now| then |now| - k - 1 else 0)
    decreases |now| - k
  {
    hide ReadServer;
    if k < |now| && c.count >= 1 {
      var s := ReadServer(m, c, None);
      ServerReach(m, c, None);
      if s.ok {
        ItemsReach(m, s.at, now[k := s.value], k + 1);
      }
    }
  }

  lemma ListReach(m: Memory, c: Cursor, old_: Option<seq<Server>>)
    ensures var at := ReadList(m, c, old_).at;
            if c.count >= 0 then c.buf <= at.buf <= c.buf + c.count + (MAX_LIST - 1) else at.buf == c.buf
  {
    hide ReadItems, Number, Power256;
    TextLengthBound();
    NumberBelow(m, c.buf, 2);
    if c.count >= 2 && Number(m, c.buf, 2) != NULL_LENGTH {
      ItemsReach(m, Cursor(c.buf + 2, c.count - 2), seq(Number(m, c.buf, 2), _ => None), 0);
    }
  }

  /** From any bytes, and whether it succeeds or fails, reading a login ends at most 65534 bytes
      behind the counted ones. */
  lemma LoginReach(m: Memory, c: Cursor, old_: Login)
    ensures var at := ReadLogin(m, c, old_).at;
            if c.count >= 0 then c.buf <= at.buf <= c.buf + c.count + MAX_LIST else at.buf == c.buf
  {
    hide ReadObject, ReadServer, ReadList;
    ObjectReach(m, c, old_.texts);
    var texts := ReadObject(m, c, old_.texts);
    if texts.ok && texts.at.count >= 1 {
      ServerReach(m, texts.at, old_.server);
      ListReach(m, ReadServer(m, texts.at, old_.server).at, old_.servers);
    }
  }

  /** So does reading a response, also when its tag fails. */
  lemma ResponseReach(m: Memory, c: Cursor, old_: Response)
    ensures var at := ReadResponse(m, c, old_).at;
            if c.count >= 0 then c.buf <= at.buf <= c.buf + c.count + MAX_LIST else at.buf == c.buf
  {
    hide ReadObject, ReadLogin;
    ObjectReach(m, c, old_.head);
    var head := ReadObject(m, c, old_.head);
    if head.ok && head.at.count >= 1 {
      LoginReach(m, head.at, if old_.tag.Some? then old_.tag.value else NEW_LOGIN);
    }
  }

  /** A login of null texts, a null server and n null elements, followed by anything but zero. */
  function NullList(n: nat): Memory
    requires n <= MAX_LIST
  {
    (p: nat) =>
      if p == 0 then 0 else if p <= 8 then 0xff else if p == 10 then n % 256 else if p == 11 then n / 256 else 1
  }

  lemma {:induction false} NullsAreRead(m: Memory, c: Cursor, now: seq<Server>, k: nat)
    requires k <= |now| && c.count >= 1
    requires forall p: nat :: c.buf <= p ==> m(p) != 0
    ensures ReadItems(m, c, now, k) ==
            Read(true, now[..k] + seq(|now| - k, _ => None), Cursor(c.buf + (|now| - k), c.count))
    decreases |now| - k
  {
    if k < |now| {
      NullsAreRead(m, Cursor(c.buf + 1, c.count), now[k := None], k + 1);
      assert now[..k] + seq(|now| - k, _ => None) == now[k := None][..k + 1] + seq(|now| - (k + 1), _ => None);
    } else {
      assert now == now[..k] + seq(0, _ => None);
    }
  }

  /** Twelve counted bytes are enough to read a login of any number of null elements, each of
      which passes one byte that is not counted; three make fifteen bytes, and 65534 reach
      the bound. */
  lemma NullsOverrun(n: nat)
    requires n <= MAX_LIST
    ensures ReadLogin(NullList(n), Cursor(0, 12), NEW_LOGIN) ==
            Read(true, Login(NEW_TEXTS, None, Some(seq(n, _ => None))), Cursor(12 + n, 1))
  {
    hide ReadItems, ReadField, Number;
    var m := NullList(n);
    NullListNumbers(n);
    NullTextsRead(m);
    var list: seq<Server> := seq(n, _ => None);
    NullsAreRead(m, Cursor(12, 1), list, 0);
    assert list[..0] + list == list;
  }

  lemma NullListNumbers(n: nat)
    requires n <= MAX_LIST
    ensures var m := NullList(n);
            && Number(m, 10, 2) == n
            && Number(m, 1, 2) == Number(m, 3, 2) == Number(m, 5, 2) == Number(m, 7, 2) == NULL_LENGTH
  {
    var m := NullList(n);
    assert forall p: nat :: p == 2 || p == 4 || p == 6 || p == 8 ==> Number(m, p, 1) == 0xff;
    assert Number(m, 11, 1) == n / 256;
  }

  lemma NullTextsRead(m: Memory)
    requires m(0) == 0
    requires Number(m, 1, 2) == Number(m, 3, 2) == Number(m, 5, 2) == Number(m, 7, 2) == NULL_LENGTH
    ensures ReadObject(m, Cursor(0, 12), NEW_TEXTS) == Read(true, NEW_TEXTS, Cursor(9, 3))
  {
    hide Number;
    var t := Text(None);
    assert NEW_TEXTS[0 := t] == NEW_TEXTS[1 := t] == NEW_TEXTS[2 := t] == NEW_TEXTS[3 := t] == NEW_TEXTS;
    assert ReadFields(m, Cursor(9, 3), NEW_TEXTS, 4) == Read(true, NEW_TEXTS, Cursor(9, 3));
    assert ReadFields(m, Cursor(7, 5), NEW_TEXTS, 3) == Read(true, NEW_TEXTS, Cursor(9, 3));
    assert ReadFields(m, Cursor(5, 7), NEW_TEXTS, 2) == Read(true, NEW_TEXTS, Cursor(9, 3));
    assert ReadFields(m, Cursor(3, 9), NEW_TEXTS, 1) == Read(true, NEW_TEXTS, Cursor(9, 3));
  }

  lemma ServerReadsPassed(m: Memory, n: Memory, c: Cursor, old_: Server)
    requires c.count >= 1 && Agree(m, n, c.buf, ReadServer(m, c, old_).at.buf)
    ensures ReadServer(m, c, old_) == ReadServer(n, c, old_)
  {
    hide ReadFields;
    var before := if old_.Some? then old_.value else NEW_SERVER;
    if m(c.buf) == 0 {
      FieldsReach(m, Cursor(c.buf + 1, c.count - 1), before, 0);
      ObjectReadsPassed(m, n, c, before);
    }
  }

  lemma {:induction false} ItemsReadPassed(m: Memory, n: Memory, c: Cursor, now: seq<Server>, k: nat)
    requires k <= |now| && c.count >= 0 && Agree(m, n, c.buf, ReadItems(m, c, now, k).at.buf)
    ensures ReadItems(m, c, now, k) == ReadItems(n, c, now, k)
    decreases |now| - k
  {
    hide ReadServer;
    if k < |now| && c.count >= 1 {
      var s := ReadServer(m, c, None);
      ServerReach(m, c, None);
      if s.ok {
        ItemsReach(m, s.at, now[k := s.value], k + 1);
        ItemsReadPassed(m, n, s.at, now[k := s.value], k + 1);
      }
      ServerReadsPassed(m, n, c, None);
    }
  }

  lemma ListReadsPassed(m: Memory, n: Memory, c: Cursor, old_: Option<seq<Server>>)
    requires Agree(m, n, c.buf, ReadList(m, c, old_).at.buf)
    ensures ReadList(m, c, old_) == ReadList(n, c, old_)
  {
    hide ReadItems, Number;
    if c.count >= 2 {
      var len, start := Number(m, c.buf, 2), Cursor(c.buf + 2, c.count - 2);
      if len != NULL_LENGTH {
        ItemsReach(m, start, seq(len, _ => None), 0);
        ItemsReadPassed(m, n, start, seq(len, _ => None), 0);
      }
      NumberInside(m, n, c.buf, 2);
    }
  }

  /** Reading a login depends on the bytes that the cursor passes and on no others, whether it
      succeeds or fails. */
  lemma LoginReadsPassed(m: Memory, n: Memory, c: Cursor, old_: Login)
    requires Agree(m, n, c.buf, ReadLogin(m, c, old_).at.buf)
    ensures ReadLogin(m, c, old_) == ReadLogin(n, c, old_)
  {
    hide ReadObject, ReadServer, ReadList;
    ObjectReach(m, c, old_.texts);
    var texts := ReadObject(m, c, old_.texts);
    if texts.ok && texts.at.count >= 1 {
      var server := ReadServer(m, texts.at, old_.server);
      ServerReach(m, texts.at, old_.server);
      ListReach(m, server.at, old_.servers);
      ServerReadsPassed(m, n, texts.at, old_.server);
      ListReadsPassed(m, n, server.at, old_.servers);
    }
    ObjectReadsPassed(m, n, c, old_.texts);
  }

  /** The same for a response. */
  lemma ResponseReadsPassed(m: Memory, n: Memory, c: Cursor, old_: Response)
    requires Agree(m, n, c.buf, ReadResponse(m, c, old_).at.buf)
    ensures ReadResponse(m, c, old_) == ReadResponse(n, c, old_)
  {
    hide ReadObject, ReadLogin;
    ObjectReach(m, c, old_.head);
    var head, before := ReadObject(m, c, old_.head), if old_.tag.Some? then old_.tag.value else NEW_LOGIN;
    if head.ok && head.at.count >= 1 && m(head.at.buf) == 0 {
      LoginStaysForward(m, head.at, before);
      LoginReadsPassed(m, n, head.at, before);
    }
    ObjectReadsPassed(m, n, c, old_.head);
  }

  lemma LoginStaysForward(m: Memory, c: Cursor, old_: Login)
    requires c.count >= 1 && m(c.buf) == 0
    ensures ReadLogin(m, c, old_).at.buf > c.buf
  {
    hide ReadFields, ReadServer, ReadList;
    var start := Cursor(c.buf + 1, c.count - 1);
    FieldsReach(m, start, old_.texts, 0);
    var texts := ReadObject(m, c, old_.texts);
    if texts.ok && texts.at.count >= 1 {
      ServerReach(m, texts.at, old_.server);
      ListReach(m, ReadServer(m, texts.at, old_.server).at, old_.servers);
    }
  }

  /** Eight zero bytes are a response whose tag ends after its mark: the tag fails, the
      response does not. */
  lemma TruncatedTagIsAccepted()
    ensures var m: Memory := _ => 0;
            var r := ReadResponse(m, Cursor(0, 8), Response(NEW_HEAD, None));
            r.ok && r.value.tag == Some(NEW_LOGIN) && r.at.count < 0
            && !ReadLogin(m, ReadObject(m, Cursor(0, 8), NEW_HEAD).at, NEW_LOGIN).ok
  {
    var m: Memory := _ => 0;
    assert Number(m, 5, 2) == 0 by {
      assert Number(m, 6, 1) == 0;
    }
    assert ReadField(m, Cursor(1, 7), NEW_HEAD[0]).at == Cursor(5, 3);
    var code := ReadField(m, Cursor(1, 7), NEW_HEAD[0]).value;
    var one := NEW_HEAD[0 := code];
    assert ReadField(m, Cursor(5, 3), one[1]) == Read(true, Text(Some([])), Cursor(7, 1));
    var two := one[1 := Text(Some([]))];
    assert ReadFields(m, Cursor(7, 1), two, 2).ok;
    assert ReadFields(m, Cursor(5, 3), one, 1) == ReadFields(m, Cursor(7, 1), two, 2);
    assert ReadObject(m, Cursor(0, 8), NEW_HEAD) == Read(true, two, Cursor(7, 1));
    assert ReadObject(m, Cursor(7, 1), NEW_TEXTS) == Read(false, NEW_TEXTS, Cursor(8, -2));
  }
}

/** The language that the reader of json/src/json_reader.cpp accepts: syntax trees over the
    tokens of a document, what they mean, and that the reader succeeds exactly on them. */
module JsonGrammar {
  import opened Common
  import opened JsonValue
  import opened JsonScan
  import opened JsonParse
  import opened Text
  import JsonNumber
  import JsonString

  /** A value with its tokens. An element keeps the token behind it, which parts it from the
      next or closes the array; a member keeps the token that ends its part of the loop, and
      `after`, the one behind its value, which is another when that is a comment. An object
      may also close where a member name is expected. */
  datatype Tree =
    | Scalar(token: Token)
    | EmptyArray(opening: Token, closing: Token)
    | Array(opening: Token, elements: seq<Element>)
    | Object(opening: Token, members: seq<Member>, close: Option<Token>)

  datatype Element = Element(value: Tree, next: Token)

  datatype Member = Member(name: Token, text: string, colon: Token, value: Tree, after: Token, next: Token)

  /** Where a tree ends. */
  function End(tree: Tree): nat {
    match tree
    case Scalar(t) => t.end
    case EmptyArray(_, closing) => closing.end
    case Array(opening, es) => if es == [] then opening.end else es[|es| - 1].next.end
    case Object(opening, ms, close) => MembersEnd(opening.end, ms, close)
  }

  function MembersEnd(i: nat, ms: seq<Member>, close: Option<Token>): nat {
    if close.Some? then close.value.end else if ms == [] then i else ms[|ms| - 1].next.end
  }

  // ---------------------------------------------------------------- meaning

  /** The value of a token that is a value by itself. */
  function ScalarOf(src: Source, t: Token): Option<Value>
    requires t.start <= t.end <= |src.doc| && (t.kind == StringToken ==> t.start + 2 <= t.end)
  {
    match t.kind
    case Number => JsonNumber.DecodeNumber(TokenText(src.doc, t), src.scan)
    case StringToken =>
      (match DecodeToken(src.doc, t)
       case Text(s) => Some(Str(CStr(s)))
       case BadText(_, _) => None)
    case TrueToken => Some(Bool(true))
    case FalseToken => Some(Bool(false))
    case NullToken => Some(Null)
    case _ => None
  }

  predicate InDoc(src: Source, t: Token) {
    t.start <= t.end <= |src.doc| && (t.kind == StringToken ==> t.start + 2 <= t.end)
  }

  /** Elements take the slots from 0 on; members are bound one after the other. */
  function Meaning(src: Source, tree: Tree): Value
    decreases tree
  {
    match tree
    case Scalar(t) => if InDoc(src, t) && ScalarOf(src, t).Some? then ScalarOf(src, t).value else Null
    case EmptyArray(_, _) => Arr([])
    case Array(_, es) => Arr(Slots(src, es, 0))
    case Object(_, ms, _) => Obj(Bound(src, [], ms))
  }

  function Slots(src: Source, es: seq<Element>, n: nat): (r: seq<Entry>)
    ensures |r| == |es|
    decreases es
  {
    if es == [] then []
    else
      assert es[0].value < es[0];
      [Entry(Index(n), Meaning(src, es[0].value))] + Slots(src, es[1..], n + 1)
  }

  function Bound(src: Source, done: seq<Entry>, ms: seq<Member>): seq<Entry>
    decreases ms
  {
    if ms == [] then done
    else
      assert ms[0].value < ms[0];
      Bound(src, Put(done, Name(CStr(ms[0].text)), Meaning(src, ms[0].value)), ms[1..])
  }

  // ---------------------------------------------------------------- syntax

  /** The tree stands in the document at position i, behind white space and comments. */
  ghost predicate Stands(src: Source, i: nat, tree: Tree)
    requires i <= |src.doc|
    decreases tree, 1
  {
    match tree
    case Scalar(t) => t == NextToken(src.doc, i, src.allowComments) && ScalarOf(src, t).Some?
    case EmptyArray(o, c) =>
      && o == NextToken(src.doc, i, src.allowComments) && o.kind == ArrayBegin
      && c == ReadToken(src.doc, o.end) && c.kind == ArrayEnd
    case Array(o, es) =>
      && o == NextToken(src.doc, i, src.allowComments) && o.kind == ArrayBegin
      && ReadToken(src.doc, o.end).kind != ArrayEnd && es != [] && ElementsStand(src, o.end, es)
    case Object(o, ms, close) =>
      && o == NextToken(src.doc, i, src.allowComments) && o.kind == ObjectBegin
      && (ms != [] || close.Some?) && MembersStand(src, o.end, "", ms, close)
  }

  /** Two elements are parted by any token but a closing bracket, which ends the last. */
  ghost predicate ElementsStand(src: Source, i: nat, es: seq<Element>)
    requires i <= |src.doc|
    decreases es, 0
  {
    es != [] ==>
      assert es[0].value < es[0];
      && Stands(src, i, es[0].value) && End(es[0].value) <= |src.doc|
      && es[0].next == PassComments(src.doc, ReadToken(src.doc, End(es[0].value)))
      && if |es| == 1 then es[0].next.kind == ArrayEnd
         else es[0].next.kind != ArrayEnd && ElementsStand(src, es[0].next.end, es[1..])
  }

  /** A member is a name, a colon and a value. It is followed by a comma or a closing brace; where
      a comment follows it, by any token. Behind the comma stands a member, or a closing brace,
      which is accepted only if the last name read is empty. */
  ghost predicate MembersStand(src: Source, i: nat, last: string, ms: seq<Member>, close: Option<Token>)
    requires i <= |src.doc|
    decreases ms, 0
  {
    if ms == [] then
      close.Some? ==>
        last == "" && close.value == PassComments(src.doc, ReadToken(src.doc, i)) && close.value.kind == ObjectEnd
    else
      assert ms[0].value < ms[0];
      MemberStands(src, i, ms[0])
      && if ms[0].next.kind == ObjectEnd then |ms| == 1 && close.None?
         else (|ms| > 1 || close.Some?) && MembersStand(src, ms[0].next.end, ms[0].text, ms[1..], close)
  }

  ghost predicate MemberStands(src: Source, i: nat, m: Member): (b: bool)
    requires i <= |src.doc|
    ensures b ==> m.next.end <= |src.doc|
    decreases m.value, 2
  {
    && m.name == PassComments(src.doc, ReadToken(src.doc, i)) && m.name.kind == StringToken
    && DecodeToken(src.doc, m.name) == JsonString.Text(m.text)
    && m.colon == ReadToken(src.doc, m.name.end) && m.colon.kind == MemberSeparator
    && Stands(src, m.colon.end, m.value) && End(m.value) <= |src.doc|
    && m.after == ReadToken(src.doc, End(m.value))
    && (m.after.kind == ObjectEnd || m.after.kind == ArraySeparator || m.after.kind == Comment)
    && m.next == PassComments(src.doc, m.after)
  }

  // ---------------------------------------------------------------- trees are read

  lemma SpacesBefore(src: Source, i: nat)
    requires i <= |src.doc|
    ensures var k := SkipSpaces(src.doc, i);
            && ReadToken(src.doc, k) == ReadToken(src.doc, i)
            && (CharAt(src.doc, k) == ']' <==> ReadToken(src.doc, i).kind == ArrayEnd)
            && (CharAt(src.doc, k) == ']' ==> ReadToken(src.doc, i).end == k + 1)
  {
    var k := SkipSpaces(src.doc, i);
    assert SkipSpaces(src.doc, k) == k;
  }

  lemma ReadsSameFrom(src: Source, i: nat, k: nat, node: Value, errors: Errors)
    requires i <= |src.doc| && k <= |src.doc| && ReadToken(src.doc, i) == ReadToken(src.doc, k)
    ensures ReadValue(src, i, node, errors) == ReadValue(src, k, node, errors)
  {
    hide ReadToken, PassComments, ReadMembers, ReadArray, NumberOutcome, StringOutcome;
  }

  /** readValue reads every tree that stands at its position, up to where it ends, and builds
      what it means, whatever value it overwrites. */
  lemma {:induction false} ReadsTree(src: Source, i: nat, tree: Tree, node: Value, errors: Errors)
    requires i <= |src.doc| && Stands(src, i, tree)
    ensures ReadValue(src, i, node, errors) == Outcome(true, End(tree), Meaning(src, tree), errors)
    decreases tree, 1
  {
    hide ReadToken, PassComments, NextToken, ReadMembers, ReadElements, DecodeToken, JsonNumber.DecodeNumber,
      SkipSpaces, ElementsStand, MembersStand, Slots, Bound;
    match tree
    case Scalar(t) =>
    case EmptyArray(o, c) => SpacesBefore(src, o.end);
    case Array(o, es) =>
      SpacesBefore(src, o.end);
      ReadsElements(src, o.end, [], es, errors);
      assert [] + Slots(src, es, 0) == Slots(src, es, 0);
      ElementsFromSpaces(src, o.end, errors);
    case Object(o, ms, close) => ReadsMembers(src, o.end, [], "", ms, close, errors);
  }

  lemma ElementsFromSpaces(src: Source, i: nat, errors: Errors)
    requires i <= |src.doc|
    ensures ReadElements(src, i, Arr([]), 0, errors) == ReadElements(src, SkipSpaces(src.doc, i), Arr([]), 0, errors)
  {
    hide ReadToken, PassComments, ReadValue, SkipSpaces, Recover;
    SpacesBefore(src, i);
    ReadsSameFrom(src, i, SkipSpaces(src.doc, i), Lookup([], Index(0)), errors);
  }

  ghost predicate Dense(es: seq<Entry>) {
    forall k :: 0 <= k < |es| ==> es[k].key == Index(k)
  }

  lemma {:induction false} ReadsElements(src: Source, i: nat, done: seq<Entry>, es: seq<Element>, errors: Errors)
    requires i <= |src.doc| && es != [] && ElementsStand(src, i, es) && Dense(done)
    ensures ReadElements(src, i, Arr(done), |done|, errors) ==
            Outcome(true, es[|es| - 1].next.end, Arr(done + Slots(src, es, |done|)), errors)
    decreases es, 0
  {
    hide ReadToken, PassComments, ReadValue, Stands, Meaning, Recover, Lookup, Put;
    assert es[0].value < es[0];
    var v, n := Meaning(src, es[0].value), |done|;
    ReadsTree(src, i, es[0].value, Lookup(done, Index(n)), errors);
    PutAtEnd(done, Index(n), v);
    var grown := done + [Entry(Index(n), v)];
    if |es| > 1 {
      ReadsElements(src, es[0].next.end, grown, es[1..], errors);
      Assoc(done, [Entry(Index(n), v)], Slots(src, es[1..], n + 1));
      assert es[1..][|es| - 2] == es[|es| - 1];
    } else {
      assert es[1..] == [] && Slots(src, [], n + 1) == [];
      assert Slots(src, es, n) == [Entry(Index(n), v)];
    }
  }

  lemma {:induction false} ReadsMembers(src: Source, i: nat, done: seq<Entry>, last: string, ms: seq<Member>,
          close: Option<Token>, errors: Errors)
    requires i <= |src.doc| && (ms != [] || close.Some?) && MembersStand(src, i, last, ms, close)
    ensures ReadMembers(src, i, Obj(done), last, errors) ==
            Outcome(true, MembersEnd(i, ms, close), Obj(Bound(src, done, ms)), errors)
    decreases ms, 0
  {
    hide ReadToken, PassComments, ReadMember, AfterMember, MemberStands, Meaning, Recover, Put;
    if ms != [] {
      assert ms[0].value < ms[0];
      var grown := Put(done, Name(CStr(ms[0].text)), Meaning(src, ms[0].value));
      ReadsMember(src, i, done, last, ms[0], errors);
      if ms[0].next.kind == ObjectEnd {
        assert ms[1..] == [];
      } else {
        ReadsMembers(src, ms[0].next.end, grown, ms[0].text, ms[1..], close, errors);
        assert |ms| > 1 ==> ms[1..][|ms| - 2] == ms[|ms| - 1];
      }
    }
  }

  /** One member, up to the token that ends its round of the loop. */
  lemma {:induction false} ReadsMember(src: Source, i: nat, done: seq<Entry>, last: string, m: Member, errors: Errors)
    requires i <= |src.doc| && MemberStands(src, i, m)
    ensures var grown := Obj(Put(done, Name(CStr(m.text)), Meaning(src, m.value)));
            ReadMembers(src, i, Obj(done), last, errors) ==
            if m.next.kind == ObjectEnd then Outcome(true, m.next.end, grown, errors)
            else ReadMembers(src, m.next.end, grown, m.text, errors)
    decreases m.value, 2
  {
    hide ReadToken, PassComments, ReadValue, Stands, Meaning, Recover, Lookup, Put, DecodeToken;
    ReadsTree(src, m.colon.end, m.value, Lookup(done, Name(CStr(m.text))), errors);
    assert ReadMembers(src, i, Obj(done), last, errors) ==
           AfterMember(src, End(m.value), Obj(Put(done, Name(CStr(m.text)), Meaning(src, m.value))), m.text, errors);
  }

  // ---------------------------------------------------------------- what is read is a tree

  /** The tree of a value that was read with success. */
  lemma {:induction false} TreeRead(src: Source, i: nat, node: Value, errors: Errors) returns (tree: Tree)
    requires i <= |src.doc| && ReadValue(src, i, node, errors).ok
    ensures Stands(src, i, tree)
    decreases |src.doc| - i, 4
  {
    hide ReadToken, PassComments, ReadMembers, ReadElements, DecodeToken, JsonNumber.DecodeNumber, SkipSpaces,
      ElementsStand, MembersStand;
    var t := NextToken(src.doc, i, src.allowComments);
    if t.kind == ObjectBegin {
      var ms, close := MembersRead(src, t.end, Obj([]), "", errors);
      tree := Object(t, ms, close);
    } else if t.kind == ArrayBegin {
      SpacesBefore(src, t.end);
      if ReadToken(src.doc, t.end).kind == ArrayEnd {
        tree := EmptyArray(t, ReadToken(src.doc, t.end));
      } else {
        ElementsFromSpaces(src, t.end, errors);
        var es := ElementsRead(src, t.end, Arr([]), 0, errors);
        tree := Array(t, es);
      }
    } else {
      tree := Scalar(t);
    }
  }

  lemma {:induction false} ElementsRead(src: Source, i: nat, node: Value, index: nat, errors: Errors)
      returns (es: seq<Element>)
    requires i <= |src.doc| && node.Arr? && ReadElements(src, i, node, index, errors).ok
    ensures es != [] && ElementsStand(src, i, es)
    decreases |src.doc| - i, 5
  {
    hide ReadToken, PassComments, ReadValue, Recover, Lookup, Put, Stands, Meaning;
    var old_ := Lookup(node.items, Index(index));
    var value := TreeRead(src, i, old_, errors);
    ReadsTree(src, i, value, old_, errors);
    var next := PassComments(src.doc, ReadToken(src.doc, End(value)));
    if next.kind == ArrayEnd {
      es := [Element(value, next)];
    } else {
      var grown := Arr(Put(node.items, Index(index), Meaning(src, value)));
      var rest := ElementsRead(src, next.end, grown, index + 1, errors);
      es := [Element(value, next)] + rest;
      assert es[1..] == rest;
    }
  }

  lemma {:induction false} MembersRead(src: Source, i: nat, node: Value, last: string, errors: Errors)
    returns (ms: seq<Member>, close: Option<Token>)
    requires i <= |src.doc| && node.Obj? && ReadMembers(src, i, node, last, errors).ok
    ensures (ms != [] || close.Some?) && MembersStand(src, i, last, ms, close)
    decreases |src.doc| - i, 3
  {
    hide ReadToken, PassComments, ReadMember, AfterMember, MemberStands, Meaning, Recover, Put;
    var t := PassComments(src.doc, ReadToken(src.doc, i));
    if t.kind == ObjectEnd && last == "" {
      ms, close := [], Some(t);
    } else {
      var m := MemberRead(src, i, node, last, errors);
      ReadsMember(src, i, node.members, last, m, errors);
      if m.next.kind == ObjectEnd {
        ms, close := [m], None;
      } else {
        var grown := Obj(Put(node.members, Name(CStr(m.text)), Meaning(src, m.value)));
        var rest;
        rest, close := MembersRead(src, m.next.end, grown, m.text, errors);
        ms := [m] + rest;
        assert ms[1..] == rest;
      }
    }
  }

  lemma {:induction false} MemberRead(src: Source, i: nat, node: Value, last: string, errors: Errors)
      returns (m: Member)
    requires i <= |src.doc| && node.Obj? && ReadMembers(src, i, node, last, errors).ok
    requires var t := PassComments(src.doc, ReadToken(src.doc, i)); !(t.kind == ObjectEnd && last == "")
    ensures MemberStands(src, i, m) && i < m.next.end
    decreases |src.doc| - i, 2
  {
    hide ReadToken, PassComments, ReadValue, Recover, Lookup, Put, Stands, Meaning, DecodeToken;
    var name := PassComments(src.doc, ReadToken(src.doc, i));
    var text := DecodeToken(src.doc, name).text;
    var colon := ReadToken(src.doc, name.end);
    var old_ := Lookup(node.members, Name(CStr(text)));
    assert ReadValue(src, colon.end, old_, errors).ok;
    var value := TreeRead(src, colon.end, old_, errors);
    ReadsTree(src, colon.end, value, old_, errors);
    var after := ReadToken(src.doc, End(value));
    m := Member(name, text, colon, value, after, PassComments(src.doc, after));
  }

  /** readValue succeeds exactly when a tree stands at its position; the outcome is the end and
      the meaning of that tree. */
  lemma ReadsExactlyTrees(src: Source, i: nat, node: Value, errors: Errors)
    requires i <= |src.doc|
    ensures ReadValue(src, i, node, errors).ok <==> exists tree :: Stands(src, i, tree)
    ensures forall tree :: Stands(src, i, tree) ==>
              ReadValue(src, i, node, errors) == Outcome(true, End(tree), Meaning(src, tree), errors)
  {
    hide ReadValue, Stands, Meaning;
    if ReadValue(src, i, node, errors).ok {
      var tree := TreeRead(src, i, node, errors);
    }
    forall tree | Stands(src, i, tree)
      ensures ReadValue(src, i, node, errors) == Outcome(true, End(tree), Meaning(src, tree), errors)
    {
      ReadsTree(src, i, tree, node, errors);
    }
  }

  /** A document is accepted exactly when it begins with a tree, in strict mode with one that
      means an array, an object or null; the result is what the tree means. */
  lemma ParsesExactlyTrees(src: Source, root: Value)
    ensures Parse(src, root).ok <==>
              exists tree :: Stands(src, 0, tree) && (src.strictRoot ==> IsArrayOrObject(Meaning(src, tree)))
    ensures forall tree :: Stands(src, 0, tree) ==> Parse(src, root).node == Meaning(src, tree)
  {
    hide ReadValue, Stands, Meaning;
    ReadsExactlyTrees(src, 0, root, []);
    if Parse(src, root).ok {
      var tree :| Stands(src, 0, tree);
      assert Stands(src, 0, tree) && (src.strictRoot ==> IsArrayOrObject(Meaning(src, tree)));
    }
  }

  // ---------------------------------------------------------------- the tokens of a tree

  /** The tokens from first to last, comments left out. */
  function Tokens(tree: Tree): seq<Token>
    decreases tree
  {
    match tree
    case Scalar(t) => [t]
    case EmptyArray(o, c) => [o] + [c]
    case Array(o, es) => [o] + ElementTokens(es)
    case Object(o, ms, close) => [o] + (MemberTokens(ms) + if close.Some? then [close.value] else [])
  }

  function ElementTokens(es: seq<Element>): seq<Token>
    decreases es
  {
    if es == [] then []
    else
      assert es[0].value < es[0];
      Tokens(es[0].value) + ([es[0].next] + ElementTokens(es[1..]))
  }

  function MemberTokens(ms: seq<Member>): seq<Token>
    decreases ms
  {
    if ms == [] then []
    else
      assert ms[0].value < ms[0];
      [ms[0].name] + ([ms[0].colon] + (Tokens(ms[0].value) + ([ms[0].next] + MemberTokens(ms[1..]))))
  }

  /** The tokens stand one behind the other from position i up to j, with nothing but white
      space and comments before each. */
  ghost predicate Laid(doc: string, i: nat, ts: seq<Token>, j: nat)
    requires i <= |doc|
    decreases |ts|
  {
    if ts == [] then i == j
    else
      ts[0] == PassComments(doc, ReadToken(doc, i)) && Laid(doc, ts[0].end, ts[1..], j)
  }

  lemma {:induction false} LaidConcat(doc: string, i: nat, a: seq<Token>, m: nat, b: seq<Token>, j: nat)
    requires i <= |doc| && m <= |doc| && Laid(doc, i, a, m) && Laid(doc, m, b, j)
    ensures Laid(doc, i, a + b, j)
    decreases |a|
  {
    hide ReadToken, PassComments;
    if a == [] {
      assert a + b == b;
    } else {
      assert (a + b)[1..] == a[1..] + b;
      LaidConcat(doc, a[0].end, a[1..], m, b, j);
    }
  }

  lemma LaidOne(doc: string, i: nat, t: Token)
    requires i <= |doc| && t == PassComments(doc, ReadToken(doc, i))
    ensures Laid(doc, i, [t], t.end)
  {
    hide ReadToken, PassComments;
  }

  lemma PlainToken(doc: string, i: nat)
    requires i <= |doc| && ReadToken(doc, i).kind != Comment
    ensures PassComments(doc, ReadToken(doc, i)) == ReadToken(doc, i)
  {
  }

  /** The document spells the tokens of a tree that stands in it. */
  lemma {:induction false} TreeIsLaid(src: Source, i: nat, tree: Tree)
    requires i <= |src.doc| && Stands(src, i, tree)
    ensures End(tree) <= |src.doc| && Laid(src.doc, i, Tokens(tree), End(tree))
    decreases tree, 1
  {
    hide ReadToken, PassComments, DecodeToken, JsonNumber.DecodeNumber, ElementsStand, MembersStand, Laid,
      ElementTokens, MemberTokens;
    FirstToken(src, i);
    var o := NextToken(src.doc, i, src.allowComments);
    LaidOne(src.doc, i, o);
    match tree
    case Scalar(t) =>
    case EmptyArray(_, c) =>
      PlainToken(src.doc, o.end);
      LaidOne(src.doc, o.end, c);
      LaidConcat(src.doc, i, [o], o.end, [c], c.end);
    case Array(_, es) =>
      ElementsAreLaid(src, o.end, es);
      LaidConcat(src.doc, i, [o], o.end, ElementTokens(es), End(tree));
    case Object(_, ms, close) =>
      MembersAreLaid(src, o.end, "", ms, close);
      LaidConcat(src.doc, i, [o], o.end, MemberTokens(ms) + (if close.Some? then [close.value] else []), End(tree));
  }

  lemma FirstToken(src: Source, i: nat)
    requires i <= |src.doc|
    ensures var t := NextToken(src.doc, i, src.allowComments);
            t.kind != Comment ==> t == PassComments(src.doc, ReadToken(src.doc, i))
  {
    hide ReadToken;
  }

  lemma {:induction false} ElementsAreLaid(src: Source, i: nat, es: seq<Element>)
    requires i <= |src.doc| && es != [] && ElementsStand(src, i, es)
    ensures var j := es[|es| - 1].next.end;
            j <= |src.doc| && Laid(src.doc, i, ElementTokens(es), j)
    decreases es, 0
  {
    hide ReadToken, PassComments, Stands, Laid, Tokens;
    assert es[0].value < es[0];
    var v, next, rest := es[0].value, es[0].next, ElementTokens(es[1..]);
    TreeIsLaid(src, i, v);
    LaidOne(src.doc, End(v), next);
    var j := es[|es| - 1].next.end;
    if |es| > 1 {
      ElementsAreLaid(src, next.end, es[1..]);
      assert es[1..][|es| - 2] == es[|es| - 1];
    } else {
      NothingLaid(src.doc, next.end);
    }
    LaidConcat(src.doc, End(v), [next], next.end, rest, j);
    LaidConcat(src.doc, i, Tokens(v), End(v), [next] + rest, j);
  }

  lemma NothingLaid(doc: string, i: nat)
    requires i <= |doc|
    ensures Laid(doc, i, [], i)
  {
  }

  lemma {:induction false} MembersAreLaid(src: Source, i: nat, last: string, ms: seq<Member>, close: Option<Token>)
    requires i <= |src.doc| && (ms != [] || close.Some?) && MembersStand(src, i, last, ms, close)
    ensures var j := MembersEnd(i, ms, close);
            j <= |src.doc| && Laid(src.doc, i, MemberTokens(ms) + (if close.Some? then [close.value] else []), j)
    decreases ms, 0
  {
    hide ReadToken, PassComments, Stands, Laid, Tokens, DecodeToken;
    var closing: seq<Token> := if close.Some? then [close.value] else [];
    if ms == [] {
      LaidOne(src.doc, i, close.value);
      assert MemberTokens(ms) + closing == closing;
    } else {
      assert ms[0].value < ms[0];
      var m, rest, j := ms[0], MemberTokens(ms[1..]) + closing, MembersEnd(i, ms, close);
      TreeIsLaid(src, m.colon.end, m.value);
      PlainToken(src.doc, m.name.end);
      LaidOne(src.doc, i, m.name);
      LaidOne(src.doc, m.name.end, m.colon);
      LaidOne(src.doc, End(m.value), m.next);
      if m.next.kind == ObjectEnd {
        NothingLaid(src.doc, m.next.end);
        assert rest == [];
      } else {
        MembersAreLaid(src, m.next.end, m.text, ms[1..], close);
        assert |ms| > 1 ==> ms[1..][|ms| - 2] == ms[|ms| - 1];
      }
      LaidConcat(src.doc, End(m.value), [m.next], m.next.end, rest, j);
      LaidConcat(src.doc, m.colon.end, Tokens(m.value), End(m.value), [m.next] + rest, j);
      LaidConcat(src.doc, m.name.end, [m.colon], m.colon.end, Tokens(m.value) + ([m.next] + rest), j);
      LaidConcat(src.doc, i, [m.name], m.name.end, [m.colon] + (Tokens(m.value) + ([m.next] + rest)), j);
      MemberTokensAre(ms, closing);
    }
  }

  lemma MemberTokensAre(ms: seq<Member>, closing: seq<Token>)
    requires ms != []
    ensures var m, rest := ms[0], MemberTokens(ms[1..]) + closing;
            MemberTokens(ms) + closing == [m.name] + ([m.colon] + (Tokens(m.value) + ([m.next] + rest)))
  {
    hide Tokens;
  }

  /** What a successful parse means: the document begins with the tokens of a tree, one behind the
      other, and the result is what the tree means. */
  lemma ParseIsSound(src: Source, root: Value) returns (tree: Tree)
    requires Parse(src, root).ok
    ensures Stands(src, 0, tree) && End(tree) <= |src.doc| && Laid(src.doc, 0, Tokens(tree), End(tree))
    ensures Parse(src, root).node == Meaning(src, tree)
  {
    hide ReadValue, Stands, Meaning, Laid;
    tree := TreeRead(src, 0, root, []);
    ReadsTree(src, 0, tree, root, []);
    TreeIsLaid(src, 0, tree);
  }

  /** In an object every name has the value of its last member. */
  lemma {:induction false} LastMemberWins(src: Source, done: seq<Entry>, ms: seq<Member>, k: nat)
    requires Sorted(done) && k < |ms|
    requires forall j :: k < j < |ms| ==> CStr(ms[j].text) != CStr(ms[k].text)
    ensures Lookup(Bound(src, done, ms), Name(CStr(ms[k].text))) == Meaning(src, ms[k].value)
    decreases |ms|
  {
    hide Lookup, Put, CStr, Meaning;
    var grown := Put(done, Name(CStr(ms[0].text)), Meaning(src, ms[0].value));
    PutIsMapUpdate(done, Name(CStr(ms[0].text)), Meaning(src, ms[0].value));
    if k > 0 {
      LastMemberWins(src, grown, ms[1..], k - 1);
    } else {
      LookupAfterPut(done, Name(CStr(ms[0].text)), Meaning(src, ms[0].value), Name(CStr(ms[0].text)));
      OthersKeep(src, grown, ms[1..], Name(CStr(ms[0].text)));
    }
  }

  lemma {:induction false} OthersKeep(src: Source, done: seq<Entry>, ms: seq<Member>, key: Key)
    requires Sorted(done) && forall j :: 0 <= j < |ms| ==> Name(CStr(ms[j].text)) != key
    ensures Lookup(Bound(src, done, ms), key) == Lookup(done, key)
    decreases |ms|
  {
    hide Lookup, Put, CStr, Meaning;
    if ms != [] {
      var name, v := Name(CStr(ms[0].text)), Meaning(src, ms[0].value);
      PutIsMapUpdate(done, name, v);
      LookupAfterPut(done, name, v, key);
      OthersKeep(src, Put(done, name, v), ms[1..], key);
    }
  }

  // ---------------------------------------------------------------- a comma before the closing brace

  /** Members that are each followed by something that is not a closing brace. */
  ghost predicate Lead(src: Source, i: nat, ms: seq<Member>)
    requires i <= |src.doc|
    decreases |ms|
  {
    ms != [] ==> MemberStands(src, i, ms[0]) && ms[0].next.kind != ObjectEnd && Lead(src, ms[0].next.end, ms[1..])
  }

  lemma {:induction false} ReadsLead(src: Source, i: nat, done: seq<Entry>, last: string, ms: seq<Member>,
          errors: Errors)
    requires i <= |src.doc| && Lead(src, i, ms)
    ensures var j := MembersEnd(i, ms, None);
            && j <= |src.doc|
            && ReadMembers(src, i, Obj(done), last, errors) ==
               ReadMembers(src, j, Obj(Bound(src, done, ms)), if ms == [] then last else ms[|ms| - 1].text, errors)
    decreases |ms|
  {
    hide ReadMembers, MemberStands, Meaning, Put;
    if ms != [] {
      ReadsMember(src, i, done, last, ms[0], errors);
      var bound := Put(done, Name(CStr(ms[0].text)), Meaning(src, ms[0].value));
      ReadsLead(src, ms[0].next.end, bound, ms[0].text, ms[1..], errors);
      assert |ms| > 1 ==> ms[1..][|ms| - 2] == ms[|ms| - 1];
    }
  }

  /** An object that closes behind a comma is accepted exactly when its last name is empty. */
  lemma TrailingComma(src: Source, i: nat, ms: seq<Member>, node: Value, errors: Errors)
    requires i <= |src.doc| && ms != []
    requires var o := NextToken(src.doc, i, src.allowComments); o.kind == ObjectBegin && Lead(src, o.end, ms)
    requires var j := ms[|ms| - 1].next.end;
             j <= |src.doc| && PassComments(src.doc, ReadToken(src.doc, j)).kind == ObjectEnd
    ensures ReadValue(src, i, node, errors).ok <==> ms[|ms| - 1].text == ""
  {
    hide ReadToken, PassComments, Lead, Meaning, ReadMember, AfterMember, Recover, Bound;
    ReadsLead(src, NextToken(src.doc, i, src.allowComments).end, [], "", ms, errors);
  }

  // ---------------------------------------------------------------- four accepted documents

  lemma MarkToken(doc: string, i: nat)
    requires i < |doc| && doc[i] in "{}[],:"
    ensures var t := Token(if doc[i] == '{' then ObjectBegin else if doc[i] == '}' then ObjectEnd
                           else if doc[i] == '[' then ArrayBegin else if doc[i] == ']' then ArrayEnd
                           else if doc[i] == ',' then ArraySeparator else MemberSeparator, i, i + 1);
            ReadToken(doc, i) == PassComments(doc, t) == NextToken(doc, i, true) == NextToken(doc, i, false) == t
  {
  }

  lemma EmptyObjectAt(src: Source, i: nat)
    requires i + 1 < |src.doc| && src.doc[i] == '{' && src.doc[i + 1] == '}'
    ensures var o := Object(Token(ObjectBegin, i, i + 1), [], Some(Token(ObjectEnd, i + 1, i + 2)));
            Stands(src, i, o) && End(o) == i + 2 && Meaning(src, o) == Obj([])
  {
    hide ReadToken;
    MarkToken(src.doc, i);
    MarkToken(src.doc, i + 1);
  }

  /** A colon between two elements. */
  lemma ColonBetweenElements(src: Source, root: Value)
    requires src.doc == "[{}:{}]"
    ensures Parse(src, root).ok && Parse(src, root).node == Arr([Entry(Index(0), Obj([])), Entry(Index(1), Obj([]))])
  {
    hide ReadToken, PassComments, NextToken, ReadValue, Meaning, Stands, ElementsStand, Slots;
    MarkToken(src.doc, 0);
    MarkToken(src.doc, 1);
    MarkToken(src.doc, 3);
    MarkToken(src.doc, 6);
    EmptyObjectAt(src, 1);
    EmptyObjectAt(src, 4);
    var a := Object(Token(ObjectBegin, 1, 2), [], Some(Token(ObjectEnd, 2, 3)));
    var b := Object(Token(ObjectBegin, 4, 5), [], Some(Token(ObjectEnd, 5, 6)));
    var e, f := Element(a, Token(MemberSeparator, 3, 4)), Element(b, Token(ArrayEnd, 6, 7));
    TwoElements(src, Token(ArrayBegin, 0, 1), e, f);
    var tree := Array(Token(ArrayBegin, 0, 1), [e, f]);
    ReadsTree(src, 0, tree, root, []);
  }

  lemma TwoElements(src: Source, opening: Token, e: Element, f: Element)
    requires opening == NextToken(src.doc, 0, src.allowComments) && opening.kind == ArrayBegin
    requires ReadToken(src.doc, opening.end).kind != ArrayEnd
    requires Stands(src, opening.end, e.value) && End(e.value) <= |src.doc|
    requires e.next == PassComments(src.doc, ReadToken(src.doc, End(e.value))) && e.next.kind != ArrayEnd
    requires Stands(src, e.next.end, f.value) && End(f.value) <= |src.doc|
    requires f.next == PassComments(src.doc, ReadToken(src.doc, End(f.value))) && f.next.kind == ArrayEnd
    ensures Stands(src, 0, Array(opening, [e, f]))
    ensures Meaning(src, Array(opening, [e, f])) ==
            Arr([Entry(Index(0), Meaning(src, e.value)), Entry(Index(1), Meaning(src, f.value))])
  {
    hide ReadToken, PassComments;
    assert [e, f][1..] == [f] && [f][1..] == [];
    assert ElementsStand(src, e.next.end, [f]);
    SlotsOfTwo(src, e, f);
  }

  lemma SlotsOfTwo(src: Source, e: Element, f: Element)
    ensures Slots(src, [e, f], 0) == [Entry(Index(0), Meaning(src, e.value)), Entry(Index(1), Meaning(src, f.value))]
  {
    hide Meaning;
    assert [e, f][1..] == [f] && [f][1..] == [];
    assert Slots(src, [f], 1) == [Entry(Index(1), Meaning(src, f.value))] + Slots(src, [], 2);
  }

  /** A comma behind a member with an empty name. */
  lemma CommaBehindEmptyName(src: Source, root: Value)
    requires src.doc == "{\"\":1,}"
    ensures Parse(src, root).ok && Parse(src, root).node == Obj([Entry(Name(""), Int(1))])
  {
    hide ReadToken, PassComments, NextToken, ReadValue, DecodeToken, ScalarOf;
    MarkToken(src.doc, 0);
    MarkToken(src.doc, 6);
    MarkToken(src.doc, 5);
    EmptyName(src);
    var m := MemberOf(src, 1, Token(StringToken, 1, 3), "", 1);
    ClosedBehindComma(src, Token(ObjectBegin, 0, 1), m, Token(ObjectEnd, 6, 7), root);
  }

  lemma ClosedBehindComma(src: Source, opening: Token, m: Member, close: Token, root: Value)
    requires opening == NextToken(src.doc, 0, src.allowComments) && opening.kind == ObjectBegin
    requires MemberStands(src, opening.end, m) && m.next.kind != ObjectEnd && m.text == ""
    requires close == PassComments(src.doc, ReadToken(src.doc, m.next.end)) && close.kind == ObjectEnd
    ensures Parse(src, root).ok && Parse(src, root).node == Obj([Entry(Name(""), Meaning(src, m.value))])
  {
    hide ReadToken, PassComments, ReadValue, MemberStands;
    var tree := Object(opening, [m], Some(close));
    assert [m][1..] == [];
    assert MembersStand(src, m.next.end, "", [], tree.close);
    ReadsTree(src, 0, tree, root, []);
    assert Bound(src, [], [m]) == Bound(src, Put([], Name(""), Meaning(src, m.value)), []);
  }

  /** A colon between two members, where a comment follows the first. */
  lemma ColonBehindComment(src: Source, root: Value)
    requires src.doc == "{\"a\":1/**/:\"b\":2}"
    ensures Parse(src, root).ok
    ensures Parse(src, root).node == Obj([Entry(Name("a"), Int(1)), Entry(Name("b"), Int(2))])
  {
    hide ReadToken, PassComments, NextToken, Parse, DecodeToken, MemberStands, Meaning, Bound;
    MarkToken(src.doc, 0);
    MarkToken(src.doc, 16);
    CommentThenColon(src.doc);
    var a := MemberWithComment(src);
    ShortName(src, 11);
    var b := MemberOf(src, 11, Token(StringToken, 11, 14), "b", 2);
    TwoMembers(src, Token(ObjectBegin, 0, 1), a, b, root);
    BoundTwo(src, a, b);
  }

  lemma MemberWithComment(src: Source) returns (a: Member)
    requires src.doc == "{\"a\":1/**/:\"b\":2}"
    ensures MemberStands(src, 1, a) && a.text == "a" && Meaning(src, a.value) == Int(1)
    ensures a.next == Token(MemberSeparator, 10, 11)
  {
    hide ReadToken, PassComments, DecodeToken, MemberStands, Meaning;
    CommentThenColon(src.doc);
    ShortName(src, 1);
    a := MemberOf(src, 1, Token(StringToken, 1, 4), "a", 1);
  }

  lemma TwoMembers(src: Source, opening: Token, a: Member, b: Member, root: Value)
    requires opening == NextToken(src.doc, 0, src.allowComments) && opening.kind == ObjectBegin
    requires MemberStands(src, opening.end, a) && a.next.kind != ObjectEnd
    requires MemberStands(src, a.next.end, b) && b.next.kind == ObjectEnd
    ensures Parse(src, root).ok && Parse(src, root).node == Obj(Bound(src, [], [a, b]))
  {
    hide ReadToken, PassComments, ReadValue, MemberStands, Bound;
    var tree := Object(opening, [a, b], None);
    assert [a, b][1..] == [b] && [b][1..] == [];
    assert MembersStand(src, a.next.end, a.text, [b], None);
    ReadsTree(src, 0, tree, root, []);
  }

  /** A member whose value is one digit and that ends before position end + 2. */
  lemma MemberOf(src: Source, i: nat, name: Token, text: string, d: nat) returns (m: Member)
    requires i <= name.end && name.start + 2 <= name.end && name.end + 2 < |src.doc| && name.kind == StringToken
    requires name == PassComments(src.doc, ReadToken(src.doc, i)) && DecodeToken(src.doc, name) == JsonString.Text(text)
    requires src.doc[name.end] == ':' && d <= 9 && src.doc[name.end + 1] == '0' + d as char
    requires !JsonNumber.IsNumberChar(src.doc[name.end + 2])
    requires ReadToken(src.doc, name.end + 2).kind in {ObjectEnd, ArraySeparator, Comment}
    ensures MemberStands(src, i, m) && m.text == text && Meaning(src, m.value) == Int(d)
    ensures m.next == PassComments(src.doc, ReadToken(src.doc, name.end + 2))
  {
    hide ReadToken, PassComments, NextToken, DecodeToken, ScalarOf;
    var e := name.end;
    MarkToken(src.doc, e);
    DigitToken(src, e + 1, d);
    var v, after := Scalar(Token(Number, e + 1, e + 2)), ReadToken(src.doc, e + 2);
    m := Member(name, text, Token(MemberSeparator, e, e + 1), v, after, PassComments(src.doc, after));
    assert Stands(src, e + 1, v);
  }

  lemma EmptyName(src: Source)
    requires src.doc == "{\"\":1,}"
    ensures var t := Token(StringToken, 1, 3);
            ReadToken(src.doc, 1) == PassComments(src.doc, t) == t && DecodeToken(src.doc, t) == JsonString.Text("")
  {
    assert JsonString.StringEnd(src.doc, 2) == (true, 3);
  }

  lemma ShortName(src: Source, i: nat)
    requires i + 2 < |src.doc| && src.doc[i] == src.doc[i + 2] == '\"'
    requires src.doc[i + 1] != '\"' && src.doc[i + 1] != '\\'
    ensures var t := Token(StringToken, i, i + 3);
            && ReadToken(src.doc, i) == PassComments(src.doc, t) == t
            && DecodeToken(src.doc, t) == JsonString.Text([src.doc[i + 1]])
  {
    assert JsonString.StringEnd(src.doc, i + 2) == (true, i + 3);
    assert JsonString.StringEnd(src.doc, i + 1) == (true, i + 3);
    var decoded := "" + [src.doc[i + 1]];
    assert JsonString.DecodeBody(src.doc, i + 2, i + 2, decoded) == JsonString.Text(decoded);
  }

  lemma DigitToken(src: Source, i: nat, d: nat)
    requires i + 1 < |src.doc| && d <= 9 && src.doc[i] == '0' + d as char
    requires !JsonNumber.IsNumberChar(src.doc[i + 1])
    ensures var t := Token(Number, i, i + 1);
            NextToken(src.doc, i, src.allowComments) == t && ScalarOf(src, t) == Some(Int(d))
  {
    assert SkipNumber(src.doc, i + 1) == i + 1;
    assert TokenText(src.doc, Token(Number, i, i + 1)) == JsonNumber.IntText(d);
    JsonNumber.DecodeInvertsPrint(d, src.scan);
  }

  lemma CommentThenColon(doc: string)
    requires doc == "{\"a\":1/**/:\"b\":2}"
    ensures ReadToken(doc, 6) == Token(Comment, 6, 10)
    ensures PassComments(doc, ReadToken(doc, 6)) == ReadToken(doc, 10) == Token(MemberSeparator, 10, 11)
  {
    assert BlockCommentEnd(doc, 8) == (true, 10);
    MarkToken(doc, 10);
  }

  lemma BoundTwo(src: Source, a: Member, b: Member)
    requires a.text == "a" && b.text == "b" && Meaning(src, a.value) == Int(1) && Meaning(src, b.value) == Int(2)
    ensures Bound(src, [], [a, b]) == [Entry(Name("a"), Int(1)), Entry(Name("b"), Int(2))]
  {
    hide Meaning;
    assert [a, b][1..] == [b] && [b][1..] == [];
    assert CStr("a") == "a" && CStr("b") == "b";
    var one := Put([], Name("a"), Int(1));
    assert one == [Entry(Name("a"), Int(1))];
    assert KeyLess(Name("a"), Name("b"));
    assert Put(one, Name("b"), Int(2)) == one + [Entry(Name("b"), Int(2))];
    assert Bound(src, one, [b]) == Bound(src, Put(one, Name("b"), Int(2)), []);
  }

  /** A strict reader takes null for a root that is an array or an object. */
  lemma StrictReaderAcceptsNull(src: Source, root: Value)
    requires src.doc == "null"
    ensures Parse(src, root).ok && Parse(src, root).node == Null
  {
    assert At(src.doc, 1, "ull");
    assert SkipSpaces(src.doc, 0) == 0;
  }
}

/** The errors of json/src/json_reader.cpp: what is reported, at which token, and where reading goes
    on. */
module JsonErrors {
  import opened Common
  import opened JsonValue
  import opened JsonScan
  import opened JsonParse
  import JsonNumber
  import JsonString

  /** A token that starts no value is an error at that token; the value that was there stays. */
  lemma NoValue(src: Source, i: nat, node: Value, errors: Errors)
    requires i <= |src.doc|
    requires var t := NextToken(src.doc, i, src.allowComments);
             t.kind in {EndOfStream, ObjectEnd, ArrayEnd, ArraySeparator, MemberSeparator, Comment, ErrorToken}
    ensures var t := NextToken(src.doc, i, src.allowComments);
            ReadValue(src, i, node, errors) ==
            Outcome(false, t.end, node, errors + [ErrorInfo(t, "Syntax error: value, object or array expected.", -1)])
  {
    hide NextToken;
  }

  /** A number that is not one is an error at its token. */
  lemma NoNumber(src: Source, i: nat, node: Value, errors: Errors)
    requires i <= |src.doc|
    requires var t := NextToken(src.doc, i, src.allowComments);
             t.kind == Number && JsonNumber.DecodeNumber(TokenText(src.doc, t), src.scan) == None
    ensures var t := NextToken(src.doc, i, src.allowComments);
            ReadValue(src, i, node, errors) ==
            Outcome(false, t.end, node,
              errors + [ErrorInfo(t, "'" + src.doc[t.start..t.end] + "' is not a number.", -1)])
  {
    hide NextToken, JsonNumber.DecodeNumber;
  }

  /** So is a string that cannot be decoded, with the place of the escape. */
  lemma NoString(src: Source, i: nat, node: Value, errors: Errors)
    requires i <= |src.doc|
    requires var t := NextToken(src.doc, i, src.allowComments);
             t.kind == StringToken && DecodeToken(src.doc, t).BadText?
    ensures var t := NextToken(src.doc, i, src.allowComments);
            var bad := DecodeToken(src.doc, t);
            ReadValue(src, i, node, errors) ==
            Outcome(false, t.end, node, errors + [ErrorInfo(t, bad.message, bad.extra)])
  {
    hide NextToken, DecodeToken;
  }

  /** What is expected where a member name should stand. */
  lemma NoName(src: Source, i: nat, node: Value, last: string, errors: Errors)
    requires i <= |src.doc| && node.Obj?
    requires var t := PassComments(src.doc, ReadToken(src.doc, i));
             t.kind != StringToken && !(t.kind == ObjectEnd && last == "")
    ensures var t := PassComments(src.doc, ReadToken(src.doc, i));
            ReadMembers(src, i, node, last, errors) ==
            Outcome(false, Recover(src.doc, t.end, ObjectEnd), node,
              errors + [ErrorInfo(t, "Missing '}' or object member name", -1)])
  {
    hide ReadToken, PassComments, Recover;
  }

  /** What is expected behind a member name. */
  lemma NoColon(src: Source, i: nat, node: Value, last: string, errors: Errors)
    requires i <= |src.doc| && node.Obj?
    requires var t := PassComments(src.doc, ReadToken(src.doc, i));
             && t.kind == StringToken && DecodeToken(src.doc, t).Text?
             && ReadToken(src.doc, t.end).kind != MemberSeparator
    ensures var colon := ReadToken(src.doc, PassComments(src.doc, ReadToken(src.doc, i)).end);
            ReadMembers(src, i, node, last, errors) ==
            Outcome(false, Recover(src.doc, colon.end, ObjectEnd), node,
              errors + [ErrorInfo(colon, "Missing ':' after object member name", -1)])
  {
    hide ReadToken, PassComments, Recover, DecodeToken;
  }

  /** What is expected behind a member. */
  lemma NoComma(src: Source, i: nat, node: Value, name: string, errors: Errors)
    requires i <= |src.doc| && node.Obj?
    requires ReadToken(src.doc, i).kind !in {ObjectEnd, ArraySeparator, Comment}
    ensures var comma := ReadToken(src.doc, i);
            AfterMember(src, i, node, name, errors) ==
            Outcome(false, Recover(src.doc, comma.end, ObjectEnd), node,
              errors + [ErrorInfo(comma, "Missing ',' or '}' in object declaration", -1)])
  {
    hide ReadToken, Recover;
  }

  /** A name that cannot be decoded. */
  lemma BadName(src: Source, i: nat, node: Value, last: string, errors: Errors)
    requires i <= |src.doc| && node.Obj?
    requires var t := PassComments(src.doc, ReadToken(src.doc, i));
             t.kind == StringToken && DecodeToken(src.doc, t).BadText?
    ensures var t := PassComments(src.doc, ReadToken(src.doc, i));
            var bad := DecodeToken(src.doc, t);
            ReadMembers(src, i, node, last, errors) ==
            Outcome(false, Recover(src.doc, t.end, ObjectEnd), node, errors + [ErrorInfo(t, bad.message, bad.extra)])
  {
    hide ReadToken, PassComments, Recover, DecodeToken;
  }

  /** A member whose value fails keeps what was read of it, and ends its object behind the brace. */
  lemma BadMember(src: Source, i: nat, node: Value, last: string, errors: Errors)
    requires i <= |src.doc| && node.Obj?
    requires var t := PassComments(src.doc, ReadToken(src.doc, i));
             && t.kind == StringToken && DecodeToken(src.doc, t).Text?
             && ReadToken(src.doc, t.end).kind == MemberSeparator
             && var key := Name(CStr(DecodeToken(src.doc, t).text));
                !ReadValue(src, ReadToken(src.doc, t.end).end, Lookup(node.members, key), errors).ok
    ensures var t := PassComments(src.doc, ReadToken(src.doc, i));
            var key := Name(CStr(DecodeToken(src.doc, t).text));
            var r := ReadValue(src, ReadToken(src.doc, t.end).end, Lookup(node.members, key), errors);
            ReadMembers(src, i, node, last, errors) ==
            Outcome(false, Recover(src.doc, r.cur, ObjectEnd), Obj(Put(node.members, key, r.node)), r.errors)
  {
    hide ReadToken, PassComments, Recover, DecodeToken, ReadValue, Put, Lookup;
  }

  /** So does an element. */
  lemma BadElement(src: Source, i: nat, node: Value, index: nat, errors: Errors)
    requires i <= |src.doc| && node.Arr?
    requires !ReadValue(src, i, Lookup(node.items, Index(index)), errors).ok
    ensures var r := ReadValue(src, i, Lookup(node.items, Index(index)), errors);
            ReadElements(src, i, node, index, errors) ==
            Outcome(false, Recover(src.doc, r.cur, ArrayEnd), Arr(Put(node.items, Index(index), r.node)), r.errors)
  {
    hide Recover, ReadValue, Put, Lookup;
  }

  /** A strict reader reports a root that is a string, a number or a bool over the whole document. */
  lemma NoStrictRoot(src: Source, root: Value)
    requires src.strictRoot
    requires var v := ReadValue(src, 0, root, []).node; v.Int? || v.UInt? || v.Real? || v.Str? || v.Bool?
    ensures var r := Parse(src, root);
            && !r.ok && r.node == ReadValue(src, 0, root, []).node
            && r.errors == ReadValue(src, 0, root, []).errors
                           + [ErrorInfo(Token(ErrorToken, 0, |src.doc|),
                                "A valid JSON document must be either an array or an object value.", -1)]
  {
    hide ReadValue;
  }

  /** The tokens are read one behind the other from position i on. */
  ghost predicate Consecutive(doc: string, i: nat, ts: seq<Token>)
    decreases |ts|
  {
    ts == [] || (i <= |doc| && ts[0] == ReadToken(doc, i) && Consecutive(doc, ts[0].end, ts[1..]))
  }

  /** Recovery drops tokens up to the first of the kind wanted, or the end of the document, and stops
      behind it. */
  lemma {:induction false} RecoveryDrops(doc: string, i: nat, until: TokenKind) returns (dropped: seq<Token>)
    requires i <= |doc|
    ensures dropped != [] && dropped[|dropped| - 1].end == Recover(doc, i, until)
    ensures Consecutive(doc, i, dropped)
    ensures forall k :: 0 <= k < |dropped| ==>
              ((dropped[k].kind == until || dropped[k].kind == EndOfStream) <==> k == |dropped| - 1)
    decreases |doc| - i
  {
    hide ReadToken;
    var t := ReadToken(doc, i);
    if t.kind == until || t.kind == EndOfStream {
      dropped := [t];
    } else {
      var rest := RecoveryDrops(doc, t.end, until);
      dropped := [t] + rest;
      assert dropped[1..] == rest;
      assert forall k :: 1 <= k < |dropped| ==> dropped[k] == rest[k - 1];
    }
  }
}

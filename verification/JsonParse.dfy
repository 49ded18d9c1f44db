/** What Reader::readValue computes (json/src/json_reader.cpp), as functions of the
    document, the position, the value under construction and the errors so far.
    Comments are skipped, not collected. */
module JsonParse {
  import opened Common
  import opened JsonValue
  import opened JsonScan
  import opened JsonNumber
  import opened Text
  import JsonString

  /** A document with the reader's features; `scan` stands for sscanf("%lf"). */
  datatype Source = Source(doc: string, allowComments: bool, strictRoot: bool, scan: string -> Option<real>)

  /** `extra` is the second location of an error; -1 stands for none. */
  datatype ErrorInfo = ErrorInfo(token: Token, message: string, extra: int)

  type Errors = seq<ErrorInfo>

  /** Success, position reached, value built, errors recorded. */
  datatype Outcome = Outcome(ok: bool, cur: nat, node: Value, errors: Errors)

  const VALUE_EXPECTED := "Syntax error: value, object or array expected."
  const MISSING_COLON := "Missing ':' after object member name"
  const MISSING_COMMA := "Missing ',' or '}' in object declaration"
  const MISSING_NAME := "Missing '}' or object member name"
  const ROOT_EXPECTED := "A valid JSON document must be either an array or an object value."
  const NOT_A_NUMBER := "' is not a number."

  function TokenText(doc: string, t: Token): string
    requires t.start <= t.end <= |doc|
  {
    doc[t.start..t.end]
  }

  /** A failed step adds exactly one error; a step never removes one. */
  ghost predicate OneErrorAtMost(r: Outcome, errors: Errors) {
    if r.ok then r.errors == errors else |r.errors| == |errors| + 1 && r.errors[..|errors|] == errors
  }

  function Fail(cur: nat, node: Value, errors: Errors, error: ErrorInfo): (r: Outcome)
    ensures !r.ok && OneErrorAtMost(r, errors)
  {
    Outcome(false, cur, node, errors + [error])
  }

  function NumberOutcome(src: Source, t: Token, node: Value, errors: Errors): (r: Outcome)
    requires t.start <= t.end <= |src.doc|
    ensures r.cur == t.end && OneErrorAtMost(r, errors)
  {
    var text := TokenText(src.doc, t);
    match DecodeNumber(text, src.scan)
    case Some(v) => Outcome(true, t.end, v, errors)
    case None => Fail(t.end, node, errors, ErrorInfo(t, "'" + text + NOT_A_NUMBER, -1))
  }

  /** decodeString(token, decoded) */
  function DecodeToken(doc: string, t: Token): JsonString.Decoded
    requires t.start + 2 <= t.end <= |doc|
  {
    JsonString.DecodeBody(doc, t.start + 1, t.end - 1, "")
  }

  function StringOutcome(src: Source, t: Token, node: Value, errors: Errors): (r: Outcome)
    requires t.start + 2 <= t.end <= |src.doc|
    ensures r.cur == t.end && OneErrorAtMost(r, errors)
  {
    match DecodeToken(src.doc, t)
    case Text(s) => Outcome(true, t.end, Str(CStr(s)), errors)
    case BadText(message, extra) => Fail(t.end, node, errors, ErrorInfo(t, message, extra))
  }

  /** readValue: `node` is the value it overwrites, or leaves when no value is found. */
  function ReadValue(src: Source, cur: nat, node: Value, errors: Errors): (r: Outcome)
    requires cur <= |src.doc|
    ensures cur <= r.cur <= |src.doc| && (r.ok ==> cur < r.cur)
    ensures OneErrorAtMost(r, errors)
    decreases |src.doc| - cur, 2
  {
    var t := NextToken(src.doc, cur, src.allowComments);
    match t.kind
    case ObjectBegin => ReadMembers(src, t.end, Obj([]), "", errors)
    case ArrayBegin => ReadArray(src, t.end, errors)
    case Number => NumberOutcome(src, t, node, errors)
    case StringToken => StringOutcome(src, t, node, errors)
    case TrueToken => Outcome(true, t.end, Bool(true), errors)
    case FalseToken => Outcome(true, t.end, Bool(false), errors)
    case NullToken => Outcome(true, t.end, Null, errors)
    case _ => Fail(t.end, node, errors, ErrorInfo(t, VALUE_EXPECTED, -1))
  }

  /** addErrorAndRecover */
  function FailAndRecover(src: Source, cur: nat, node: Value, errors: Errors, error: ErrorInfo,
          until: TokenKind): (r: Outcome)
    requires cur <= |src.doc|
    ensures !r.ok && cur <= r.cur <= |src.doc| && OneErrorAtMost(r, errors)
  {
    Fail(Recover(src.doc, cur, until), node, errors, error)
  }

  /** The loop of readObject; `name` is the member name read last. */
  function ReadMembers(src: Source, cur: nat, node: Value, name: string, errors: Errors): (r: Outcome)
    requires cur <= |src.doc| && node.Obj?
    ensures cur <= r.cur <= |src.doc|
    ensures OneErrorAtMost(r, errors)
    decreases |src.doc| - cur, 1
  {
    var t := PassComments(src.doc, ReadToken(src.doc, cur));
    if t.kind == ObjectEnd && name == "" then Outcome(true, t.end, node, errors)
    else if t.kind != StringToken then
      FailAndRecover(src, t.end, node, errors, ErrorInfo(t, MISSING_NAME, -1), ObjectEnd)
    else
      var (member, decoded) := ReadMember(src, t, node, errors);
      if !member.ok then member else AfterMember(src, member.cur, member.node, decoded, errors)
  }

  /** The rest of the loop, behind a member. */
  function AfterMember(src: Source, cur: nat, node: Value, name: string, errors: Errors): (r: Outcome)
    requires cur <= |src.doc| && node.Obj?
    ensures cur <= r.cur <= |src.doc|
    ensures OneErrorAtMost(r, errors)
    decreases |src.doc| - cur, 0
  {
    var comma := ReadToken(src.doc, cur);
    if comma.kind != ObjectEnd && comma.kind != ArraySeparator && comma.kind != Comment then
      FailAndRecover(src, comma.end, node, errors, ErrorInfo(comma, MISSING_COMMA, -1), ObjectEnd)
    else
      var last := PassComments(src.doc, comma);
      if last.kind == ObjectEnd then Outcome(true, last.end, node, errors)
      else ReadMembers(src, last.end, node, name, errors)
  }

  /** One member from its name token to the end of its value, and the name. */
  function ReadMember(src: Source, t: Token, node: Value, errors: Errors): (r: (Outcome, string))
    requires t.start + 2 <= t.end <= |src.doc| && node.Obj?
    ensures t.end <= r.0.cur <= |src.doc| && r.0.node.Obj?
    ensures OneErrorAtMost(r.0, errors)
    decreases |src.doc| - t.end, 0
  {
    match DecodeToken(src.doc, t)
    case BadText(message, extra) =>
      (FailAndRecover(src, t.end, node, errors, ErrorInfo(t, message, extra), ObjectEnd), "")
    case Text(decoded) =>
      var colon := ReadToken(src.doc, t.end);
      if colon.kind != MemberSeparator then
        (FailAndRecover(src, colon.end, node, errors, ErrorInfo(colon, MISSING_COLON, -1), ObjectEnd), decoded)
      else
        var key := Name(CStr(decoded));
        var r := ReadValue(src, colon.end, Lookup(node.members, key), errors);
        var cur := if r.ok then r.cur else Recover(src.doc, r.cur, ObjectEnd);
        (Outcome(r.ok, cur, Obj(Put(node.members, key, r.node)), r.errors), decoded)
  }

  /** readArray, after the opening bracket. */
  function ReadArray(src: Source, cur: nat, errors: Errors): (r: Outcome)
    requires cur <= |src.doc|
    ensures cur <= r.cur <= |src.doc|
    ensures OneErrorAtMost(r, errors)
    decreases |src.doc| - cur, 4
  {
    var first := SkipSpaces(src.doc, cur);
    if CharAt(src.doc, first) == ']' then Outcome(true, first + 1, Arr([]), errors)
    else ReadElements(src, first, Arr([]), 0, errors)
  }

  /** The loop of readArray. Whatever token follows an element is taken for a
      separator unless it ends the array: the test at json_reader.cpp:566 asks for
      two kinds at once and never fires. */
  function ReadElements(src: Source, cur: nat, node: Value, index: nat, errors: Errors): (r: Outcome)
    requires cur <= |src.doc| && node.Arr?
    ensures cur <= r.cur <= |src.doc|
    ensures OneErrorAtMost(r, errors)
    decreases |src.doc| - cur, 3
  {
    var key := Index(index);
    var r := ReadValue(src, cur, Lookup(node.items, key), errors);
    var grown := Arr(Put(node.items, key, r.node));
    if !r.ok then Outcome(false, Recover(src.doc, r.cur, ArrayEnd), grown, r.errors)
    else
      var t := PassComments(src.doc, ReadToken(src.doc, r.cur));
      if t.kind == ArrayEnd then Outcome(true, t.end, grown, errors)
      else ReadElements(src, t.end, grown, index + 1, errors)
  }

  function IsArrayOrObject(v: Value): bool {
    v.Null? || v.Arr? || v.Obj?
  }

  /** parse: `root` is what the caller's value held before. A strict reader records
      one more error when the root is neither array nor object (null counts as both).
      Success means exactly that no error is recorded, and a reader that is not strict
      records at most one, whatever recovery went through. */
  function Parse(src: Source, root: Value): (r: Outcome)
    ensures r.cur <= |src.doc|
    ensures r.ok <==> r.errors == []
    ensures |r.errors| <= if src.strictRoot then 2 else 1
  {
    var r := ReadValue(src, 0, root, []);
    var trailing := NextToken(src.doc, r.cur, src.allowComments);
    if src.strictRoot && !IsArrayOrObject(r.node) then
      Outcome(false, trailing.end, r.node, r.errors + [ErrorInfo(Token(ErrorToken, 0, |src.doc|), ROOT_EXPECTED, -1)])
    else Outcome(r.ok, trailing.end, r.node, r.errors)
  }
}

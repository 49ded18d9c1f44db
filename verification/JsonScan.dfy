/** The tokenizer of json/src/json_reader.cpp: every function takes the document and
    a position and says which position is reached. Past the end of the document the
    reader sees the terminator '\0'. */
module JsonScan {
  import opened Text
  import JsonNumber
  import JsonString

  datatype TokenKind =
    | EndOfStream | ObjectBegin | ObjectEnd | ArrayBegin | ArrayEnd
    | StringToken | Number | TrueToken | FalseToken | NullToken
    | ArraySeparator | MemberSeparator | Comment | ErrorToken

  datatype Token = Token(kind: TokenKind, start: nat, end: nat)

  predicate IsSpace(c: char) {
    c == ' ' || c == '\t' || c == '\r' || c == '\n'
  }

  predicate AllSpace(s: string) {
    forall k :: 0 <= k < |s| ==> IsSpace(s[k])
  }

  function SkipSpaces(doc: string, i: nat): (j: nat)
    requires i <= |doc|
    ensures i <= j <= |doc|
    ensures forall k :: i <= k < j ==> IsSpace(doc[k])
    ensures j < |doc| ==> !IsSpace(doc[j])
    decreases |doc| - i
  {
    if i < |doc| && IsSpace(doc[i]) then SkipSpaces(doc, i + 1) else i
  }

  function SkipNumber(doc: string, i: nat): (j: nat)
    requires i <= |doc|
    ensures i <= j <= |doc|
    ensures forall k :: i <= k < j ==> JsonNumber.IsNumberChar(doc[k])
    ensures j < |doc| ==> !JsonNumber.IsNumberChar(doc[j])
    decreases |doc| - i
  {
    if i < |doc| && JsonNumber.IsNumberChar(doc[i]) then SkipNumber(doc, i + 1) else i
  }

  /** readCStyleComment, after the opening: success and the position reached. */
  function BlockCommentEnd(doc: string, i: nat): (r: (bool, nat))
    requires i <= |doc|
    ensures i <= r.1 <= |doc|
    decreases |doc| - i
  {
    if i == |doc| then (false, i)
    else if doc[i] == '*' && CharAt(doc, i + 1) == '/' then (true, i + 2)
    else BlockCommentEnd(doc, i + 1)
  }

  /** readCppStyleComment */
  function LineCommentEnd(doc: string, i: nat): (j: nat)
    requires i <= |doc|
    ensures i <= j <= |doc|
    decreases |doc| - i
  {
    if i == |doc| then i
    else if doc[i] == '\r' || doc[i] == '\n' then i + 1
    else LineCommentEnd(doc, i + 1)
  }

  /** readComment, after the first slash. */
  function CommentEnd(doc: string, i: nat): (r: (bool, nat))
    requires i <= |doc|
    ensures i <= r.1 <= |doc|
  {
    if i == |doc| then (false, i)
    else if doc[i] == '*' then BlockCommentEnd(doc, i + 1)
    else if doc[i] == '/' then (true, LineCommentEnd(doc, i + 1))
    else (false, i + 1)
  }

  /** match */
  function MatchEnd(doc: string, i: nat, pattern: string): (r: (bool, nat))
    requires i <= |doc|
    ensures i <= r.1 <= |doc|
  {
    if At(doc, i, pattern) then (true, i + |pattern|) else (false, i)
  }

  function Checked(kind: TokenKind, start: nat, r: (bool, nat)): Token {
    Token(if r.0 then kind else ErrorToken, start, r.1)
  }

  /** The token that starts at position k, which holds no space. */
  function TokenAt(doc: string, k: nat): (t: Token)
    requires k <= |doc|
    ensures t.start == k <= t.end <= |doc|
    ensures k < |doc| ==> k < t.end
    ensures k == |doc| ==> t.kind == EndOfStream
    ensures t.kind == StringToken ==> t.end >= k + 2
  {
    if k == |doc| then Token(EndOfStream, k, k)
    else
      var c := doc[k];
      if c == '{' then Token(ObjectBegin, k, k + 1)
      else if c == '}' then Token(ObjectEnd, k, k + 1)
      else if c == '[' then Token(ArrayBegin, k, k + 1)
      else if c == ']' then Token(ArrayEnd, k, k + 1)
      else if c == '\"' then Checked(StringToken, k, JsonString.StringEnd(doc, k + 1))
      else if c == '/' then Checked(Comment, k, CommentEnd(doc, k + 1))
      else if JsonNumber.IsDigit(c) || c == '-' then Token(Number, k, SkipNumber(doc, k + 1))
      else if c == 't' then Checked(TrueToken, k, MatchEnd(doc, k + 1, "rue"))
      else if c == 'f' then Checked(FalseToken, k, MatchEnd(doc, k + 1, "alse"))
      else if c == 'n' then Checked(NullToken, k, MatchEnd(doc, k + 1, "ull"))
      else if c == ',' then Token(ArraySeparator, k, k + 1)
      else if c == ':' then Token(MemberSeparator, k, k + 1)
      else if c == '\0' then Token(EndOfStream, k, k + 1)
      else Token(ErrorToken, k, k + 1)
  }

  /** readToken */
  function ReadToken(doc: string, i: nat): (t: Token)
    requires i <= |doc|
    ensures i <= t.start <= t.end <= |doc|
    ensures i < t.end || (t.kind == EndOfStream && t.end == |doc|)
    ensures t.kind == StringToken ==> t.end >= t.start + 2
  {
    TokenAt(doc, SkipSpaces(doc, i))
  }

  /** Reads on while the token in hand is a comment. */
  function PassComments(doc: string, t: Token): (u: Token)
    requires t.end <= |doc| && t.start <= t.end
    requires t.kind == StringToken ==> t.end >= t.start + 2
    ensures u.kind != Comment
    ensures t.end <= u.end <= |doc| && u.start <= u.end
    ensures u.kind == StringToken ==> u.end >= u.start + 2
    decreases |doc| - t.end
  {
    if t.kind != Comment then t else
      var next := ReadToken(doc, t.end);
      if next.kind == EndOfStream then next else PassComments(doc, next)
  }

  /** skipCommentTokens */
  function NextToken(doc: string, i: nat, allowComments: bool): (t: Token)
    requires i <= |doc|
    ensures t.start <= t.end && i <= t.end <= |doc|
    ensures i < t.end || t.kind == EndOfStream
    ensures t.kind == StringToken ==> t.end >= t.start + 2
  {
    var t := ReadToken(doc, i);
    if allowComments then PassComments(doc, t) else t
  }

  /** recoverFromError: tokens are dropped up to the wanted kind or the end. */
  function Recover(doc: string, i: nat, until: TokenKind): (j: nat)
    requires i <= |doc|
    ensures i <= j <= |doc|
    decreases |doc| - i
  {
    var t := ReadToken(doc, i);
    if t.kind == until || t.kind == EndOfStream then t.end else Recover(doc, t.end, until)
  }
}

/** The Reader class of json/src/json_reader.cpp: a cursor, a stack of the values
    under construction and a queue of errors, updated in place. Each method is proved
    to do what the functions of JsonScan and JsonParse say. */
module JsonReader {
  import opened Common
  import opened JsonValue
  import opened JsonScan
  import opened JsonNumber
  import opened Text
  import JsonString
  import Utf8
  import P = JsonParse

  class Reader {
    const allowComments: bool
    const strictRoot: bool
    const scan: string -> Option<real>
    var document: string
    var current: nat
    /** nodes_ holds pointers into the tree; here a value under construction is on the
        stack itself and is stored into its parent when it is popped. */
    var nodes: seq<Value>
    var errors: P.Errors

    constructor (allowComments: bool, strictRoot: bool, scan: string -> Option<real>)
      ensures this.allowComments == allowComments && this.strictRoot == strictRoot && this.scan == scan
    {
      this.allowComments, this.strictRoot, this.scan := allowComments, strictRoot, scan;
      document, current, nodes, errors := "", 0, [], [];
    }

    ghost function Src(): P.Source
      reads this
    {
      P.Source(document, allowComments, strictRoot, scan)
    }

    ghost predicate InBounds()
      reads this
    {
      current <= |document|
    }

    /** The call has come to the outcome r, on a stack of unchanged height. */
    ghost predicate Reached(ok: bool, below: seq<Value>, r: P.Outcome)
      reads this
    {
      ok == r.ok && current == r.cur && errors == r.errors && nodes == below + [r.node]
    }

    // -------------------------------------------------------------- characters

    method GetNextChar() returns (c: char)
      requires InBounds()
      modifies this`current
      ensures InBounds()
      ensures c == CharAt(document, old(current))
      ensures current == if old(current) < |document| then old(current) + 1 else old(current)
    {
      if current == |document| {
        return '\0';
      }
      c := document[current];
      current := current + 1;
    }

    method SkipSpaces()
      requires InBounds()
      modifies this`current
      ensures InBounds() && current == JsonScan.SkipSpaces(document, old(current))
    {
      while current != |document|
        invariant InBounds()
        invariant JsonScan.SkipSpaces(document, current) == JsonScan.SkipSpaces(document, old(current))
      {
        if !IsSpace(document[current]) {
          break;
        }
        current := current + 1;
      }
    }

    method Match(pattern: string) returns (ok: bool)
      requires InBounds()
      modifies this`current
      ensures InBounds() && (ok, current) == MatchEnd(document, old(current), pattern)
    {
      if |document| - current < |pattern| {
        return false;
      }
      var index := |pattern|;
      while index > 0
        invariant 0 <= index <= |pattern|
        invariant forall k :: index <= k < |pattern| ==> document[current + k] == pattern[k]
      {
        index := index - 1;
        if document[current + index] != pattern[index] {
          return false;
        }
      }
      current := current + |pattern|;
      ok := true;
    }

    method ReadBlockComment() returns (ok: bool)
      requires InBounds()
      modifies this`current
      ensures InBounds() && (ok, current) == BlockCommentEnd(document, old(current))
    {
      while current != |document|
        invariant InBounds()
        invariant BlockCommentEnd(document, current) == BlockCommentEnd(document, old(current))
        decreases |document| - current
      {
        var c := GetNextChar();
        if c == '*' && CharAt(document, current) == '/' {
          var slash := GetNextChar();
          return slash == '/';
        }
      }
      var none := GetNextChar();
      ok := none == '/';
    }

    method ReadLineComment()
      requires InBounds()
      modifies this`current
      ensures InBounds() && current == LineCommentEnd(document, old(current))
    {
      while current != |document|
        invariant InBounds()
        invariant LineCommentEnd(document, current) == LineCommentEnd(document, old(current))
        decreases |document| - current
      {
        var c := GetNextChar();
        if c == '\r' || c == '\n' {
          return;
        }
      }
    }

    method ReadComment() returns (ok: bool)
      requires InBounds()
      modifies this`current
      ensures InBounds() && (ok, current) == CommentEnd(document, old(current))
    {
      var c := GetNextChar();
      if c == '*' {
        ok := ReadBlockComment();
      } else if c == '/' {
        ReadLineComment();
        ok := true;
      } else {
        ok := false;
      }
    }

    method ReadNumber()
      requires InBounds()
      modifies this`current
      ensures InBounds() && current == SkipNumber(document, old(current))
    {
      while current != |document|
        invariant InBounds()
        invariant SkipNumber(document, current) == SkipNumber(document, old(current))
      {
        if !IsNumberChar(document[current]) {
          break;
        }
        current := current + 1;
      }
    }

    method ReadString() returns (ok: bool)
      requires InBounds()
      modifies this`current
      ensures InBounds() && (ok, current) == JsonString.StringEnd(document, old(current))
    {
      var c := '\0';
      while current != |document|
        invariant InBounds()
        invariant JsonString.StringEnd(document, current) == JsonString.StringEnd(document, old(current))
        invariant c != '\"'
        decreases |document| - current
      {
        c := GetNextChar();
        if c == '\\' {
          var escaped := GetNextChar();
        } else if c == '\"' {
          break;
        }
      }
      ok := c == '\"';
    }

    // -------------------------------------------------------------- tokens

    method ReadToken() returns (t: Token)
      requires InBounds()
      modifies this`current
      ensures InBounds() && t == JsonScan.ReadToken(document, old(current)) && current == t.end
    {
      SkipSpaces();
      var start := current;
      var c := GetNextChar();
      var ok, kind := true, ErrorToken;
      match c {
      case '{' => kind := ObjectBegin;
      case '}' => kind := ObjectEnd;
      case '[' => kind := ArrayBegin;
      case ']' => kind := ArrayEnd;
      case '\"' =>
        kind := StringToken;
        ok := ReadString();
      case '/' =>
        kind := Comment;
        ok := ReadComment();
      case 't' =>
        kind := TrueToken;
        ok := Match("rue");
      case 'f' =>
        kind := FalseToken;
        ok := Match("alse");
      case 'n' =>
        kind := NullToken;
        ok := Match("ull");
      case ',' => kind := ArraySeparator;
      case ':' => kind := MemberSeparator;
      case '\0' => kind := EndOfStream;
      case _ =>
        if IsDigit(c) || c == '-' {
          kind := Number;
          ReadNumber();
        } else {
          ok := false;
        }
      }
      t := Token(if ok then kind else ErrorToken, start, current);
    }

    /** while (token.type_ == tokenComment) readToken(token) */
    method PassComments(token: Token) returns (t: Token)
      requires InBounds() && token.start <= token.end == current
      requires token.kind == StringToken ==> token.end >= token.start + 2
      modifies this`current
      ensures InBounds() && t == JsonScan.PassComments(document, token) && current == t.end
    {
      t := token;
      while t.kind == Comment
        invariant InBounds() && t.start <= t.end == current
        invariant t.kind == StringToken ==> t.end >= t.start + 2
        invariant JsonScan.PassComments(document, t) == JsonScan.PassComments(document, token)
        decreases |document| - current, t.kind == Comment
      {
        t := ReadToken();
      }
    }

    method SkipCommentTokens() returns (t: Token)
      requires InBounds()
      modifies this`current
      ensures InBounds() && t == NextToken(document, old(current), allowComments) && current == t.end
    {
      t := ReadToken();
      if allowComments {
        t := PassComments(t);
      }
    }

    // -------------------------------------------------------------- errors

    method AddError(message: string, token: Token, extra: int) returns (ok: bool)
      modifies this`errors
      ensures !ok && errors == old(errors) + [P.ErrorInfo(token, message, extra)]
    {
      errors := errors + [P.ErrorInfo(token, message, extra)];
      ok := false;
    }

    method RecoverFromError(until: TokenKind) returns (ok: bool)
      requires InBounds()
      modifies this`current, this`errors
      ensures !ok && InBounds() && current == Recover(document, old(current), until)
      ensures errors == old(errors)
    {
      var errorCount := |errors|;
      while true
        invariant InBounds() && errors == old(errors)
        invariant Recover(document, current, until) == Recover(document, old(current), until)
        decreases |document| - current
      {
        var skip := ReadToken();
        if skip.kind == until || skip.kind == EndOfStream {
          break;
        }
      }
      errors := errors[..errorCount];
      ok := false;
    }

    method AddErrorAndRecover(message: string, token: Token, until: TokenKind) returns (ok: bool)
      requires InBounds()
      modifies this`current, this`errors
      ensures !ok && InBounds() && current == Recover(document, old(current), until)
      ensures errors == old(errors) + [P.ErrorInfo(token, message, -1)]
    {
      ok := AddError(message, token, -1);
      ok := RecoverFromError(until);
    }

    // -------------------------------------------------------------- scalars

    method SetCurrentValue(v: Value)
      requires nodes != []
      modifies this`nodes
      ensures nodes == old(nodes)[..|old(nodes)| - 1] + [v]
    {
      nodes := nodes[..|nodes| - 1] + [v];
    }

    /** The digits of a number token, in 32 bit arithmetic that never wraps. */
    method AccumulateDigits(first: nat, end: nat, threshold: uint32) returns (a: Accumulated)
      requires first <= end <= |document| && threshold as int * 10 <= MAX_UINT
      ensures a == Accumulate(document[first..end], threshold as int, 0)
    {
      var value: uint32 := 0;
      var cur := first;
      while cur < end
        invariant first <= cur <= end
        invariant Accumulate(document[cur..end], threshold as int, value as int) ==
                  Accumulate(document[first..end], threshold as int, 0)
      {
        var c := document[cur];
        assert document[cur..end][0] == c && document[cur..end][1..] == document[cur + 1..end];
        cur := cur + 1;
        if !IsDigit(c) {
          return BadDigit;
        }
        if value >= threshold {
          return TooBig;
        }
        value := value * 10 + DigitValue(c) as uint32;
      }
      a := Total(value as int);
    }

    method DecodeNumber(t: Token) returns (ok: bool)
      requires nodes != [] && t.start <= t.end == current <= |document|
      modifies this`nodes, this`errors
      ensures Reached(ok, old(nodes)[..|old(nodes)| - 1],
                      P.NumberOutcome(old(Src()), t, old(nodes)[|old(nodes)| - 1], old(errors)))
    {
      hide LooksReal, Accumulate;
      ghost var text := P.TokenText(document, t);
      var isDouble := InspectNumber(t);
      if isDouble {
        ok := DecodeDouble(t);
        return;
      }
      var isNegative := t.start < t.end && document[t.start] == '-';
      var first := if isNegative then t.start + 1 else t.start;
      var threshold: uint32 := (if isNegative then -MIN_INT else MAX_UINT) as uint32 / 10;
      assert isNegative ==> text[1..] == document[t.start + 1..t.end];
      var a := AccumulateDigits(first, t.end, threshold);
      match a
      case BadDigit => ok := AddError("'" + document[t.start..t.end] + P.NOT_A_NUMBER, t, -1);
        assert nodes == nodes[..|nodes| - 1] + [nodes[|nodes| - 1]];
      case TooBig => ok := DecodeDouble(t);
      case Total(n) =>
        SetCurrentValue(if isNegative then Int(-n) else if n <= MAX_INT then Int(n) else UInt(n));
        ok := true;
    }

    /** The loop of decodeNumber that looks for the signs of a real. */
    method InspectNumber(t: Token) returns (isDouble: bool)
      requires t.start <= t.end <= |document|
      ensures isDouble == LooksReal(P.TokenText(document, t))
    {
      isDouble := false;
      for inspect := t.start to t.end
        invariant isDouble <==> LooksReal(document[t.start..inspect])
      {
        var c := document[inspect];
        LooksRealSnoc(document[t.start..inspect], c);
        assert document[t.start..inspect + 1] == document[t.start..inspect] + [c];
        isDouble := isDouble || c == '.' || c == 'e' || c == 'E' || c == '+' || (c == '-' && inspect != t.start);
      }
    }

    static lemma LooksRealSnoc(s: string, c: char)
      ensures LooksReal(s + [c]) <==> LooksReal(s) || MarksReal(s + [c], |s|)
    {
      var whole := s + [c];
      assert forall k :: 0 <= k < |s| ==> MarksReal(whole, k) == MarksReal(s, k);
    }

    method DecodeDouble(t: Token) returns (ok: bool)
      requires nodes != [] && t.start <= t.end <= |document|
      modifies this`nodes, this`errors
      ensures match JsonNumber.DecodeDouble(P.TokenText(document, t), scan)
              case Some(v) => ok && errors == old(errors) && nodes == old(nodes)[..|old(nodes)| - 1] + [v]
              case None =>
                !ok && nodes == old(nodes)
                && errors == old(errors) + [P.ErrorInfo(t, "'" + P.TokenText(document, t) + P.NOT_A_NUMBER, -1)]
    {
      var text := document[t.start..t.end];
      match scan(text)
      case None => ok := AddError("'" + text + P.NOT_A_NUMBER, t, -1);
      case Some(r) =>
        SetCurrentValue(Real(r));
        ok := true;
    }

    /** decodeUnicodeEscapeSequence: four hexadecimal digits, in 32 bit arithmetic. */
    method DecodeUnicodeEscapeSequence(t: Token, from: nat, end: nat) returns (ok: bool, cur: nat, unicode: uint32)
      requires from <= end <= |document|
      modifies this`errors
      ensures match JsonString.EscapeUnit(document, from, end)
              case Unit(code, next) => ok && cur == next && unicode as int == code < 0x10000 && errors == old(errors)
              case BadUnit(message, extra) => !ok && errors == old(errors) + [P.ErrorInfo(t, message, extra)]
    {
      unicode, cur := 0, from;
      if end - cur < 4 {
        ok := AddError(JsonString.FOUR_DIGITS, t, cur);
        return;
      }
      ghost var room := 1;
      for index := 0 to 4
        invariant cur == from + index && errors == old(errors)
        invariant room == (if index == 0 then 1 else if index == 1 then 0x10 else if index == 2 then 0x100
                           else if index == 3 then 0x1000 else 0x10000)
        invariant unicode as int < room
        invariant JsonString.HexUnit(document, cur, 4 - index, unicode as int) ==
                  JsonString.HexUnit(document, from, 4, 0)
      {
        var digit := HexValue(document[cur]);
        cur := cur + 1;
        if digit < 0 {
          ok := AddError(JsonString.HEX_DIGITS, t, cur);
          return;
        }
        unicode := unicode * 16 + digit as uint32;
        room := room * 16;
      }
      ok := true;
    }

    method DecodeUnicodeCodePoint(t: Token, from: nat, end: nat) returns (ok: bool, cur: nat, unicode: uint32)
      requires from <= end <= |document|
      modifies this`errors
      ensures match JsonString.CodePoint(document, from, end)
              case Unit(code, next) => ok && cur == next && unicode as int == code && errors == old(errors)
              case BadUnit(message, extra) => !ok && errors == old(errors) + [P.ErrorInfo(t, message, extra)]
    {
      hide JsonString.EscapeUnit;
      ok, cur, unicode := DecodeUnicodeEscapeSequence(t, from, end);
      if !ok || !(0xD800 <= unicode <= 0xDBFF) {
        return;
      }
      if end - cur < 6 {
        ok := AddError(JsonString.SIX_MORE, t, cur);
        return;
      }
      cur := cur + 1;
      if document[cur - 1] == '\\' {
        cur := cur + 1;
        if document[cur - 1] == 'u' {
          var surrogatePair: uint32;
          ok, cur, surrogatePair := DecodeUnicodeEscapeSequence(t, cur, end);
          if ok {
            unicode := 0x10000 + unicode % 0x400 * 0x400 + surrogatePair % 0x400;
          }
          return;
        }
      }
      ok := AddError(JsonString.SECOND_HALF, t, cur);
    }

    /** decodeString(token, decoded) */
    method DecodeStringTo(t: Token) returns (ok: bool, decoded: string)
      requires t.start + 2 <= t.end <= |document|
      modifies this`errors
      ensures match P.DecodeToken(document, t)
              case Text(s) => ok && decoded == s && errors == old(errors)
              case BadText(message, extra) => !ok && errors == old(errors) + [P.ErrorInfo(t, message, extra)]
    {
      hide JsonString.DecodeBody, JsonString.CodePoint, JsonString.SimpleEscape, Utf8.CodePointToUtf8;
      decoded := "";
      var cur, end := t.start + 1, t.end - 1;
      while cur != end
        invariant t.start < cur <= end && errors == old(errors)
        invariant JsonString.DecodeBody(document, cur, end, decoded) == P.DecodeToken(document, t)
      {
        DecodesOne(document, cur, end, decoded);
        var c := document[cur];
        cur := cur + 1;
        if c == '\"' {
          break;
        }
        if c != '\\' {
          decoded := decoded + [c];
          continue;
        }
        if cur == end {
          ok := AddError(JsonString.EMPTY_ESCAPE, t, cur);
          return;
        }
        var escape := document[cur];
        cur := cur + 1;
        if JsonString.SimpleEscape(escape) != "" {
          decoded := decoded + JsonString.SimpleEscape(escape);
        } else if escape == 'u' {
          var unicode: uint32;
          ok, cur, unicode := DecodeUnicodeCodePoint(t, cur, end);
          if !ok {
            return;
          }
          decoded := decoded + Utf8.CodePointToUtf8(unicode as int);
        } else {
          ok := AddError(JsonString.BAD_ESCAPE, t, cur);
          return;
        }
      }
      if cur == end {
        DecodesNothing(document, cur, end, decoded);
      }
      ok := true;
    }

    method DecodeString(t: Token) returns (ok: bool)
      requires nodes != [] && t.start + 2 <= t.end == current <= |document|
      modifies this`nodes, this`errors
      ensures Reached(ok, old(nodes)[..|old(nodes)| - 1],
                      P.StringOutcome(old(Src()), t, old(nodes)[|old(nodes)| - 1], old(errors)))
    {
      var decoded;
      ok, decoded := DecodeStringTo(t);
      if ok {
        SetCurrentValue(Str(CStr(decoded)));
      } else {
        assert nodes == nodes[..|nodes| - 1] + [nodes[|nodes| - 1]];
      }
    }

    // -------------------------------------------------------------- values

    method ReadValue() returns (ok: bool)
      requires InBounds() && nodes != []
      modifies this`current, this`nodes, this`errors
      ensures InBounds()
      ensures Reached(ok, old(nodes)[..|old(nodes)| - 1],
                      P.ReadValue(old(Src()), old(current), old(nodes)[|old(nodes)| - 1], old(errors)))
      decreases |document| - current, 2
    {
      hide P.ReadMembers, P.ReadArray, P.NumberOutcome, P.StringOutcome, NextToken;
      var t := SkipCommentTokens();
      assert nodes == nodes[..|nodes| - 1] + [nodes[|nodes| - 1]];
      match t.kind
      case ObjectBegin => ok := ReadObject();
      case ArrayBegin => ok := ReadArray();
      case Number => ok := DecodeNumber(t);
      case StringToken => ok := DecodeString(t);
      case TrueToken =>
        SetCurrentValue(Bool(true));
        ok := true;
      case FalseToken =>
        SetCurrentValue(Bool(false));
        ok := true;
      case NullToken =>
        SetCurrentValue(Null);
        ok := true;
      case _ => ok := AddError(P.VALUE_EXPECTED, t, -1);
    }

    /** Runs readValue on a child of the current value and stores the child back. */
    method ReadChild(key: Key) returns (ok: bool)
      requires InBounds() && nodes != []
      requires nodes[|nodes| - 1].Obj? || nodes[|nodes| - 1].Arr?
      modifies this`current, this`nodes, this`errors
      ensures InBounds()
      ensures var top, below := old(nodes)[|old(nodes)| - 1], old(nodes)[..|old(nodes)| - 1];
              var entries := if top.Obj? then top.members else top.items;
              var r := P.ReadValue(old(Src()), old(current), Lookup(entries, key), old(errors));
              var grown := Put(entries, key, r.node);
              Reached(ok, below, r.(node := if top.Obj? then Obj(grown) else Arr(grown)))
      decreases |document| - current, 3
    {
      ghost var height := |nodes|;
      var parent := nodes[|nodes| - 1];
      nodes := nodes + [Lookup(if parent.Obj? then parent.members else parent.items, key)];
      ok := ReadValue();
      var child := nodes[|nodes| - 1];
      nodes := nodes[..|nodes| - 1];
      SetCurrentValue(if parent.Obj? then Obj(Put(parent.members, key, child)) else Arr(Put(parent.items, key, child)));
    }

    /** The part of readObject's loop from a member name to the end of its value. */
    method ReadMember(t: Token) returns (ok: bool, name: string)
      requires InBounds() && nodes != [] && nodes[|nodes| - 1].Obj? && t.start + 2 <= t.end == current
      modifies this`current, this`nodes, this`errors
      ensures InBounds()
      ensures var (r, decoded) := P.ReadMember(old(Src()), t, old(nodes)[|old(nodes)| - 1], old(errors));
              Reached(ok, old(nodes)[..|old(nodes)| - 1], r) && (ok ==> name == decoded)
      decreases |document| - current, 4
    {
      hide P.ReadValue, JsonScan.ReadToken, Recover, JsonString.DecodeBody, Put, Lookup;
      assert nodes == nodes[..|nodes| - 1] + [nodes[|nodes| - 1]];
      ok, name := DecodeStringTo(t);
      if !ok {
        ok := RecoverFromError(ObjectEnd);
        return;
      }
      var colon := ReadToken();
      if colon.kind != MemberSeparator {
        ok := AddErrorAndRecover(P.MISSING_COLON, colon, ObjectEnd);
        return;
      }
      ok := ReadChild(Name(CStr(name)));
      if !ok {
        ok := RecoverFromError(ObjectEnd);
      }
    }

    method ReadObject() returns (ok: bool)
      requires InBounds() && nodes != []
      modifies this`current, this`nodes, this`errors
      ensures InBounds()
      ensures Reached(ok, old(nodes)[..|old(nodes)| - 1],
                      P.ReadMembers(old(Src()), old(current), Obj([]), "", old(errors)))
      decreases |document| - current, 5
    {
      hide P.ReadMembers, P.AfterMember, P.ReadMember, JsonScan.ReadToken, JsonScan.PassComments, Recover;
      ghost var below := nodes[..|nodes| - 1];
      ghost var start := P.ReadMembers(Src(), current, Obj([]), "", errors);
      ghost var node := Obj([]);
      var name := "";
      SetCurrentValue(Obj([]));
      while true
        invariant InBounds() && old(current) <= current && errors == old(errors)
        invariant nodes == below + [node] && node.Obj?
        invariant P.ReadMembers(Src(), current, node, name, errors) == start
        decreases |document| - current
      {
        MembersAre(Src(), current, node, name, errors);
        var t := ReadToken();
        t := PassComments(t);
        if t.kind == ObjectEnd && name == "" {
          return true;
        }
        if t.kind != StringToken {
          ok := AddErrorAndRecover(P.MISSING_NAME, t, ObjectEnd);
          return;
        }
        assert nodes[..|nodes| - 1] == below;
        ok, name := ReadMember(t);
        if !ok {
          return;
        }
        node := nodes[|below|];
        AfterMemberIs(Src(), current, node, name, errors);
        var comma := ReadToken();
        if comma.kind != ObjectEnd && comma.kind != ArraySeparator && comma.kind != Comment {
          ok := AddErrorAndRecover(P.MISSING_COMMA, comma, ObjectEnd);
          return;
        }
        comma := PassComments(comma);
        if comma.kind == ObjectEnd {
          return true;
        }
      }
    }

    method ReadArray() returns (ok: bool)
      requires InBounds() && nodes != []
      modifies this`current, this`nodes, this`errors
      ensures InBounds()
      ensures Reached(ok, old(nodes)[..|old(nodes)| - 1], P.ReadArray(old(Src()), old(current), old(errors)))
      decreases |document| - current, 4
    {
      hide P.ReadValue, JsonScan.PassComments, Recover;
      ghost var below := nodes[..|nodes| - 1];
      ghost var start := P.ReadArray(Src(), current, errors);
      ghost var node := Arr([]);
      SetCurrentValue(Arr([]));
      SkipSpaces();
      if CharAt(document, current) == ']' {
        var endArray := ReadToken();
        return true;
      }
      var index := 0;
      while true
        invariant InBounds() && old(current) <= current && errors == old(errors)
        invariant nodes == below + [node] && node.Arr?
        invariant P.ReadElements(Src(), current, node, index, errors) == start
        decreases |document| - current
      {
        assert nodes[..|nodes| - 1] == below;
        ok := ReadChild(Index(index));
        node := nodes[|below|];
        index := index + 1;
        if !ok {
          ok := RecoverFromError(ArrayEnd);
          return;
        }
        var t := ReadToken();
        t := PassComments(t);
        // the source's badTokenType: the error branch it guards is never taken
        assert !(t.kind == ArraySeparator && t.kind == ArrayEnd);
        if t.kind == ArrayEnd {
          return true;
        }
      }
    }

    /** parse(document, root): `result` is the root as the call leaves it. */
    method Parse(document: string, root: Value) returns (ok: bool, result: Value)
      modifies this
      ensures var r := P.Parse(Src(), root);
              ok == r.ok && result == r.node && current == r.cur && errors == r.errors
      ensures this.document == document && nodes == [result]
    {
      this.document, current, errors, nodes := document, 0, [], [root];
      ok := ReadValue();
      var trailing := SkipCommentTokens();
      result := nodes[0];
      if strictRoot && !P.IsArrayOrObject(result) {
        ok := AddError(P.ROOT_EXPECTED, Token(ErrorToken, 0, |document|), -1);
      }
    }
  }

  /** One round of the loop of readObject, up to the member. */
  lemma MembersAre(src: P.Source, cur: nat, node: Value, name: string, errors: P.Errors)
    requires cur <= |src.doc| && node.Obj?
    ensures var t := JsonScan.PassComments(src.doc, JsonScan.ReadToken(src.doc, cur));
            P.ReadMembers(src, cur, node, name, errors) ==
            if t.kind == ObjectEnd && name == "" then P.Outcome(true, t.end, node, errors)
            else if t.kind != StringToken then
              P.FailAndRecover(src, t.end, node, errors, P.ErrorInfo(t, P.MISSING_NAME, -1), ObjectEnd)
            else
              var (member, decoded) := P.ReadMember(src, t, node, errors);
              if !member.ok then member else P.AfterMember(src, member.cur, member.node, decoded, errors)
  {
  }

  /** And behind it. */
  lemma AfterMemberIs(src: P.Source, cur: nat, node: Value, name: string, errors: P.Errors)
    requires cur <= |src.doc| && node.Obj?
    ensures var comma := JsonScan.ReadToken(src.doc, cur);
            P.AfterMember(src, cur, node, name, errors) ==
            if comma.kind != ObjectEnd && comma.kind != ArraySeparator && comma.kind != Comment then
              P.FailAndRecover(src, comma.end, node, errors, P.ErrorInfo(comma, P.MISSING_COMMA, -1), ObjectEnd)
            else
              var last := JsonScan.PassComments(src.doc, comma);
              if last.kind == ObjectEnd then P.Outcome(true, last.end, node, errors)
              else P.ReadMembers(src, last.end, node, name, errors)
  {
  }

  /** One round of the loop of decodeString. */
  lemma DecodesOne(doc: string, cur: nat, end: nat, decoded: string)
    requires cur < end <= |doc|
    ensures JsonString.DecodeBody(doc, cur, end, decoded) ==
            if doc[cur] == '\"' then JsonString.Text(decoded)
            else if doc[cur] != '\\' then JsonString.DecodeBody(doc, cur + 1, end, decoded + [doc[cur]])
            else if cur + 1 == end then JsonString.BadText(JsonString.EMPTY_ESCAPE, cur + 1)
            else if JsonString.SimpleEscape(doc[cur + 1]) != "" then
              JsonString.DecodeBody(doc, cur + 2, end, decoded + JsonString.SimpleEscape(doc[cur + 1]))
            else if doc[cur + 1] != 'u' then JsonString.BadText(JsonString.BAD_ESCAPE, cur + 2)
            else
              match JsonString.CodePoint(doc, cur + 2, end)
              case BadUnit(message, extra) => JsonString.BadText(message, extra)
              case Unit(code, next) => JsonString.DecodeBody(doc, next, end, decoded + Utf8.CodePointToUtf8(code))
  {
    hide JsonString.CodePoint, JsonString.SimpleEscape, Utf8.CodePointToUtf8;
  }

  lemma DecodesNothing(doc: string, cur: nat, end: nat, decoded: string)
    requires cur == end <= |doc|
    ensures JsonString.DecodeBody(doc, cur, end, decoded) == JsonString.Text(decoded)
  {
  }
}

/** Characters of a text and positions in it. */
module Text {
  /** -1 when c is no hexadecimal digit. */
  function HexValue(c: char): int {
    if '0' <= c <= '9' then c as int - '0' as int
    else if 'a' <= c <= 'f' then c as int - 'a' as int + 10
    else if 'A' <= c <= 'F' then c as int - 'A' as int + 10
    else -1
  }

  /** Past the last character stands the terminator. */
  function CharAt(doc: string, i: nat): char {
    if i < |doc| then doc[i] else '\0'
  }

  /** The text t occurs in doc at position i. */
  predicate At(doc: string, i: nat, t: string) {
    i + |t| <= |doc| && forall k :: 0 <= k < |t| ==> doc[i + k] == t[k]
  }

  lemma AtConcat(doc: string, i: nat, a: string, b: string)
    ensures At(doc, i, a + b) <==> At(doc, i, a) && At(doc, i + |a|, b)
  {
    if At(doc, i, a + b) {
      forall k | 0 <= k < |a| ensures doc[i + k] == a[k] {
        assert (a + b)[k] == a[k];
      }
      forall k | 0 <= k < |b| ensures doc[i + |a| + k] == b[k] {
        assert (a + b)[|a| + k] == b[k];
      }
    }
  }

  lemma AtIndex(doc: string, i: nat, t: string, k: nat)
    requires At(doc, i, t) && k < |t|
    ensures doc[i + k] == t[k]
  {
  }

  lemma AtSlice(doc: string, i: nat, t: string)
    ensures At(doc, i, t) <==> i + |t| <= |doc| && doc[i..i + |t|] == t
  {
    if i + |t| <= |doc| && doc[i..i + |t|] == t {
      forall k | 0 <= k < |t| ensures doc[i + k] == t[k] {
        assert doc[i..i + |t|][k] == doc[i + k];
      }
    }
  }

  lemma Assoc<T>(a: seq<T>, b: seq<T>, c: seq<T>)
    ensures (a + b) + c == a + (b + c)
  {
  }
}

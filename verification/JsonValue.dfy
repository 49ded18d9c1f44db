/** The JSON value tree of json/src/json_value.cpp: its containers, which are
    sorted maps from a key (a member name or an array index) to a value, its
    equality and its ordering. */
module JsonValue {
  const MAX_INT: int := 0x7fff_ffff
  const MIN_INT: int := -0x8000_0000
  const MAX_UINT: int := 0xffff_ffff

  /** A container key: a C string for objects, an index for arrays. */
  datatype Key = Index(index: int) | Name(name: string)

  datatype Entry = Entry(key: Key, value: Value)

  /** Reals are finite doubles taken as mathematical reals (no NaN). The entries of
      an array or an object are listed in the iteration order of the sorted map. */
  datatype Value =
    | Null
    | Int(i: int)
    | UInt(u: int)
    | Real(r: real)
    | Str(s: string)
    | Bool(b: bool)
    | Arr(items: seq<Entry>)
    | Obj(members: seq<Entry>)

  // ---------------------------------------------------------------- C strings

  /** The part of a string that a C string reader sees. */
  function CStr(s: string): string {
    if s == "" || s[0] == '\0' then "" else [s[0]] + CStr(s[1..])
  }

  lemma CStrOfNulFree(s: string)
    requires '\0' !in s
    ensures CStr(s) == s
  {
    if s != "" {
      CStrOfNulFree(s[1..]);
    }
  }

  /** strcmp(a, b) < 0 on the bytes before the terminator. */
  predicate StrLess(a: string, b: string) {
    b != "" && (a == "" || a[0] < b[0] || (a[0] == b[0] && StrLess(a[1..], b[1..])))
  }

  lemma {:induction false} StrTrichotomy(a: string, b: string)
    ensures StrLess(a, b) ==> a != b && !StrLess(b, a)
    ensures StrLess(a, b) || a == b || StrLess(b, a)
  {
    if a != "" && b != "" && a[0] == b[0] {
      StrTrichotomy(a[1..], b[1..]);
      assert a == [a[0]] + a[1..] && b == [b[0]] + b[1..];
    }
  }

  lemma {:induction false} StrTransitive(a: string, b: string, c: string)
    requires StrLess(a, b) && StrLess(b, c)
    ensures StrLess(a, c)
  {
    if a != "" && a[0] == b[0] == c[0] {
      StrTransitive(a[1..], b[1..], c[1..]);
    }
  }

  // ---------------------------------------------------------------- keys

  /** Keys of one container are all of the same kind; putting indexes before names
      only makes the order total. */
  predicate KeyLess(a: Key, b: Key) {
    match (a, b)
    case (Index(i), Index(j)) => i < j
    case (Name(m), Name(n)) => StrLess(m, n)
    case (Index(_), Name(_)) => true
    case (Name(_), Index(_)) => false
  }

  lemma KeyTrichotomy(a: Key, b: Key)
    ensures KeyLess(a, b) ==> a != b && !KeyLess(b, a)
    ensures KeyLess(a, b) || a == b || KeyLess(b, a)
  {
    if a.Name? && b.Name? {
      StrTrichotomy(a.name, b.name);
    }
  }

  lemma KeyTransitive(a: Key, b: Key, c: Key)
    requires KeyLess(a, b) && KeyLess(b, c)
    ensures KeyLess(a, c)
  {
    if a.Name? && b.Name? && c.Name? {
      StrTransitive(a.name, b.name, c.name);
    }
  }

  // ---------------------------------------------------------------- size of a tree

  ghost function Weight(v: Value): (n: nat)
    ensures n >= 1
  {
    match v
    case Arr(es) => 1 + WeightAll(es)
    case Obj(es) => 1 + WeightAll(es)
    case _ => 1
  }

  ghost function WeightAll(es: seq<Entry>): nat {
    if es == [] then 0 else assert es[0].value < es[0]; Weight(es[0].value) + WeightAll(es[1..])
  }

  lemma {:induction false} WeightOfEntry(es: seq<Entry>, p: nat)
    requires p < |es|
    ensures Weight(es[p].value) <= WeightAll(es)
  {
    if p > 0 {
      WeightOfEntry(es[1..], p - 1);
    }
  }

  // ---------------------------------------------------------------- containers

  predicate Sorted(es: seq<Entry>) {
    forall i, j :: 0 <= i < j < |es| ==> KeyLess(es[i].key, es[j].key)
  }

  /** The position of a key, or the number of entries when it is missing. */
  function Find(es: seq<Entry>, key: Key): (p: nat)
    ensures p <= |es|
    ensures p < |es| ==> es[p].key == key
    ensures p == |es| ==> forall k :: 0 <= k < |es| ==> es[k].key != key
  {
    if es == [] then 0 else if es[0].key == key then 0 else 1 + Find(es[1..], key)
  }

  /** The bound value; a missing key reads as null. */
  function Lookup(es: seq<Entry>, key: Key): (v: Value)
    ensures es != [] ==> Weight(v) <= WeightAll(es)
  {
    var p := Find(es, key);
    if p < |es| then
      WeightOfEntry(es, p);
      es[p].value
    else Null
  }

  /** Binds a key, keeping the entries sorted. */
  function Put(es: seq<Entry>, key: Key, value: Value): seq<Entry> {
    if es == [] then [Entry(key, value)]
    else if KeyLess(es[0].key, key) then [es[0]] + Put(es[1..], key, value)
    else if es[0].key == key then [Entry(key, value)] + es[1..]
    else [Entry(key, value)] + es
  }

  /** Number of array slots: the highest index plus one. */
  function ArraySize(items: seq<Entry>): int {
    if items == [] then 0
    else match items[|items| - 1].key
      case Index(i) => i + 1
      case Name(_) => 0
  }

  /** What the C++ type guarantees of a tree: machine integers, C strings, sorted maps. */
  predicate Valid(v: Value) {
    match v
    case Null => true
    case Int(i) => MIN_INT <= i <= MAX_INT
    case UInt(u) => 0 <= u <= MAX_UINT
    case Real(_) => true
    case Str(s) => '\0' !in s
    case Bool(_) => true
    case Arr(es) =>
      Sorted(es)
      && forall k :: 0 <= k < |es| ==> es[k].key.Index? && es[k].key.index >= 0 && Valid(es[k].value)
    case Obj(es) =>
      Sorted(es)
      && forall k :: 0 <= k < |es| ==> es[k].key.Name? && '\0' !in es[k].key.name && Valid(es[k].value)
  }

  lemma {:induction false} PutIsMapUpdate(es: seq<Entry>, key: Key, value: Value)
    requires Sorted(es)
    ensures Sorted(Put(es, key, value))
    ensures forall e :: e in Put(es, key, value) <==> e == Entry(key, value) || (e in es && e.key != key)
  {
    if es != [] {
      var head, rest := es[0], es[1..];
      assert es == [head] + rest;
      KeyTrichotomy(head.key, key);
      forall k | 0 <= k < |rest| ensures rest[k].key != head.key {
        KeyTrichotomy(head.key, rest[k].key);
      }
      if KeyLess(head.key, key) {
        PutIsMapUpdate(rest, key, value);
        var put := Put(rest, key, value);
        forall k | 0 <= k < |put| ensures KeyLess(head.key, put[k].key) {
          assert put[k] in put;
        }
      } else if head.key != key {
        forall k | 0 <= k < |es| ensures KeyLess(key, es[k].key) && es[k].key != key {
          if k > 0 {
            KeyTransitive(key, head.key, es[k].key);
          }
          KeyTrichotomy(key, es[k].key);
        }
      }
    }
  }

  lemma FindEntry(es: seq<Entry>, e: Entry)
    requires Sorted(es) && e in es
    ensures Lookup(es, e.key) == e.value
  {
    var p := Find(es, e.key);
    var q :| 0 <= q < |es| && es[q] == e;
    if p < q {
      KeyTrichotomy(es[p].key, es[q].key);
    } else if q < p {
      KeyTrichotomy(es[q].key, es[p].key);
    }
  }

  /** operator[] on a container is finite-map update: it binds the key and leaves
      every other binding alone. */
  lemma LookupAfterPut(es: seq<Entry>, key: Key, value: Value, other: Key)
    requires Sorted(es)
    ensures Lookup(Put(es, key, value), other) == if other == key then value else Lookup(es, other)
  {
    PutIsMapUpdate(es, key, value);
    var put := Put(es, key, value);
    var p, q := Find(put, other), Find(es, other);
    if other == key {
      FindEntry(put, Entry(key, value));
    } else if q < |es| {
      assert es[q] in put;
      FindEntry(put, es[q]);
    } else {
      assert forall e :: e in put ==> e.key != other;
    }
  }

  /** A key above all others is bound at the end. */
  lemma {:induction false} PutAtEnd(es: seq<Entry>, key: Key, value: Value)
    requires forall k :: 0 <= k < |es| ==> KeyLess(es[k].key, key)
    ensures Put(es, key, value) == es + [Entry(key, value)]
    ensures Find(es, key) == |es|
  {
    if es != [] {
      PutAtEnd(es[1..], key, value);
      KeyTrichotomy(es[0].key, key);
      assert es + [Entry(key, value)] == [es[0]] + (es[1..] + [Entry(key, value)]);
    }
  }

  // ---------------------------------------------------------------- equality and order

  function TypeRank(v: Value): nat {
    match v
    case Null => 0
    case Int(_) => 1
    case UInt(_) => 2
    case Real(_) => 3
    case Str(_) => 4
    case Bool(_) => 5
    case Arr(_) => 6
    case Obj(_) => 7
  }

  /** operator<: by type, then by number, string or bool, then size first and
      entries lexicographically. */
  predicate Less(a: Value, b: Value)
    decreases Weight(a) + Weight(b), 0
  {
    if TypeRank(a) != TypeRank(b) then TypeRank(a) < TypeRank(b)
    else match a
      case Null => false
      case Int(i) => i < b.i
      case UInt(u) => u < b.u
      case Real(r) => r < b.r
      case Str(s) => StrLess(s, b.s)
      case Bool(x) => !x && b.b
      case Arr(es) => if |es| != |b.items| then |es| < |b.items| else EntriesLess(es, b.items)
      case Obj(es) => if |es| != |b.members| then |es| < |b.members| else EntriesLess(es, b.members)
  }

  /** std::lexicographical_compare over key/value pairs. */
  predicate EntriesLess(es: seq<Entry>, fs: seq<Entry>)
    decreases WeightAll(es) + WeightAll(fs), 1, |es|
  {
    if fs == [] then false
    else if es == [] then true
    else if KeyLess(es[0].key, fs[0].key) then true
    else if !KeyLess(fs[0].key, es[0].key) && Less(es[0].value, fs[0].value) then true
    else if KeyLess(fs[0].key, es[0].key) then false
    else if !KeyLess(es[0].key, fs[0].key) && Less(fs[0].value, es[0].value) then false
    else EntriesLess(es[1..], fs[1..])
  }

  /** operator==: same type, then same number, string or bool, then equal size and
      pairwise equal entries. */
  predicate Equal(a: Value, b: Value) {
    if TypeRank(a) != TypeRank(b) then false
    else match a
      case Null => true
      case Int(i) => i == b.i
      case UInt(u) => u == b.u
      case Real(r) => r == b.r
      case Str(s) => !StrLess(s, b.s) && !StrLess(b.s, s)
      case Bool(x) => x == b.b
      case Arr(es) => |es| == |b.items| && EntriesEqual(es, b.items)
      case Obj(es) => |es| == |b.members| && EntriesEqual(es, b.members)
  }

  predicate EntriesEqual(es: seq<Entry>, fs: seq<Entry>)
    requires |es| == |fs|
  {
    if es == [] then true
    else
      assert es[0].value < es[0];
      KeyEqual(es[0].key, fs[0].key) && Equal(es[0].value, fs[0].value) && EntriesEqual(es[1..], fs[1..])
  }

  /** Keys compare equal when strcmp, or the index comparison, sees no difference. */
  predicate KeyEqual(a: Key, b: Key) {
    !KeyLess(a, b) && !KeyLess(b, a)
  }

  /** operator== is equality of trees. */
  lemma {:induction false} EqualIsIdentity(a: Value, b: Value)
    ensures Equal(a, b) <==> a == b
    decreases a, 1
  {
    match a
    case Null =>
    case Int(_) =>
    case UInt(_) =>
    case Real(_) =>
    case Bool(_) =>
    case Str(s) =>
      if b.Str? {
        StrTrichotomy(s, b.s);
      }
    case Arr(es) =>
      if b.Arr? && |es| == |b.items| {
        EntriesEqualIsIdentity(es, b.items);
      }
    case Obj(es) =>
      if b.Obj? && |es| == |b.members| {
        EntriesEqualIsIdentity(es, b.members);
      }
  }

  lemma {:induction false} EntriesEqualIsIdentity(es: seq<Entry>, fs: seq<Entry>)
    requires |es| == |fs|
    ensures EntriesEqual(es, fs) <==> es == fs
    decreases es, 0
  {
    if es != [] {
      KeyTrichotomy(es[0].key, fs[0].key);
      assert es[0].value < es[0];
      EqualIsIdentity(es[0].value, fs[0].value);
      EntriesEqualIsIdentity(es[1..], fs[1..]);
      assert es == [es[0]] + es[1..] && fs == [fs[0]] + fs[1..];
    }
  }

  ghost predicate ExactlyOne(p: bool, q: bool, r: bool) {
    (p && !q && !r) || (!p && q && !r) || (!p && !q && r)
  }

  /** Exactly one of a < b, a == b and b < a holds. */
  lemma {:induction false} Trichotomy(a: Value, b: Value)
    ensures ExactlyOne(Less(a, b), Equal(a, b), Less(b, a))
    decreases Weight(a) + Weight(b), 0
  {
    EqualIsIdentity(a, b);
    if TypeRank(a) == TypeRank(b) {
      match a
      case Null =>
      case Int(_) =>
      case UInt(_) =>
      case Real(_) =>
      case Bool(_) =>
      case Str(s) => StrTrichotomy(s, b.s);
      case Arr(es) =>
        if |es| == |b.items| {
          EntriesTrichotomy(es, b.items);
        }
      case Obj(es) =>
        if |es| == |b.members| {
          EntriesTrichotomy(es, b.members);
        }
    }
  }

  lemma {:induction false} EntriesTrichotomy(es: seq<Entry>, fs: seq<Entry>)
    requires |es| == |fs|
    ensures ExactlyOne(EntriesLess(es, fs), es == fs, EntriesLess(fs, es))
    decreases WeightAll(es) + WeightAll(fs), 1, |es|
  {
    if es != [] {
      var e, f := es[0], fs[0];
      KeyTrichotomy(e.key, f.key);
      Trichotomy(e.value, f.value);
      EqualIsIdentity(e.value, f.value);
      EntriesTrichotomy(es[1..], fs[1..]);
      assert es == [e] + es[1..] && fs == [f] + fs[1..];
    }
  }

  /** a < b and b < c give a < c. */
  lemma {:induction false} Transitive(a: Value, b: Value, c: Value)
    requires Less(a, b) && Less(b, c)
    ensures Less(a, c)
    decreases a, 1
  {
    if TypeRank(a) == TypeRank(b) == TypeRank(c) {
      match a
      case Null =>
      case Int(_) =>
      case UInt(_) =>
      case Real(_) =>
      case Bool(_) =>
      case Str(s) => StrTransitive(s, b.s, c.s);
      case Arr(es) =>
        if |es| == |b.items| == |c.items| {
          EntriesTransitive(es, b.items, c.items);
        }
      case Obj(es) =>
        if |es| == |b.members| == |c.members| {
          EntriesTransitive(es, b.members, c.members);
        }
    }
  }

  lemma {:induction false} EntriesTransitive(es: seq<Entry>, fs: seq<Entry>, gs: seq<Entry>)
    requires |es| == |fs| == |gs|
    requires EntriesLess(es, fs) && EntriesLess(fs, gs)
    ensures EntriesLess(es, gs)
    decreases es, 0
  {
    var e, f, g := es[0], fs[0], gs[0];
    KeyTrichotomy(e.key, f.key);
    KeyTrichotomy(f.key, g.key);
    KeyTrichotomy(e.key, g.key);
    Trichotomy(e.value, f.value);
    Trichotomy(f.value, g.value);
    Trichotomy(e.value, g.value);
    EqualIsIdentity(e.value, f.value);
    EqualIsIdentity(f.value, g.value);
    if KeyLess(e.key, f.key) && KeyLess(f.key, g.key) {
      KeyTransitive(e.key, f.key, g.key);
    } else if e.key == f.key == g.key {
      if Less(e.value, f.value) && Less(f.value, g.value) {
        assert es[0].value < es[0];
        Transitive(e.value, f.value, g.value);
      } else if e.value == f.value == g.value {
        EntriesTransitive(es[1..], fs[1..], gs[1..]);
      }
    }
  }
}

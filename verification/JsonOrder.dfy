/** What Value::operator< of json/src/json_value.cpp orders by. */
module JsonOrder {
  import opened JsonValue

  /** Null, int, uint, real, string, bool, array, object. */
  ghost function Rank(v: Value): int {
    if v.Null? then 0 else if v.Int? then 1 else if v.UInt? then 2 else if v.Real? then 3
    else if v.Str? then 4 else if v.Bool? then 5 else if v.Arr? then 6 else 7
  }

  /** Position k decides: the texts agree before it, and there a ends or has the smaller character. */
  ghost predicate DecidesText(a: string, b: string, k: nat) {
    k <= |a| && k < |b| && a[..k] == b[..k] && (k == |a| || a[k] < b[k])
  }

  ghost predicate TextBefore(a: string, b: string) {
    exists k: nat :: DecidesText(a, b, k)
  }

  ghost predicate KeyBefore(a: Key, b: Key) {
    match (a, b)
    case (Index(i), Index(j)) => i < j
    case (Name(m), Name(n)) => TextBefore(m, n)
    case (Index(_), Name(_)) => true
    case (Name(_), Index(_)) => false
  }

  /** By type; numbers and bools by value, strings by their first difference, containers by their
      size and then by the first entry that differs. */
  ghost predicate Before(a: Value, b: Value)
    decreases a, 1
  {
    if Rank(a) != Rank(b) then Rank(a) < Rank(b)
    else match a
      case Null => false
      case Int(i) => i < b.i
      case UInt(u) => u < b.u
      case Real(r) => r < b.r
      case Str(s) => TextBefore(s, b.s)
      case Bool(x) => !x && b.b
      case Arr(es) => |es| < |b.items| || (|es| == |b.items| && EntriesBefore(es, b.items))
      case Obj(es) => |es| < |b.members| || (|es| == |b.members| && EntriesBefore(es, b.members))
  }

  ghost predicate EntriesBefore(es: seq<Entry>, fs: seq<Entry>)
    requires |es| == |fs|
    decreases es, 0
  {
    exists k: nat :: k < |es| && DecidesEntries(es, fs, k)
  }

  /** The entries agree before position k, and there the key is smaller, or the value at the same key. */
  ghost predicate DecidesEntries(es: seq<Entry>, fs: seq<Entry>, k: nat)
    requires k < |es| == |fs|
    decreases es, 0, 0
  {
    && es[..k] == fs[..k]
    && (KeyBefore(es[k].key, fs[k].key)
        || (es[k].key == fs[k].key && (assert es[k].value < es[k]; Before(es[k].value, fs[k].value))))
  }

  // ---------------------------------------------------------------- texts and keys

  lemma {:induction false} StrLessDecides(a: string, b: string)
    ensures StrLess(a, b) <==> TextBefore(a, b)
    decreases |a|
  {
    if b != "" && (a == "" || a[0] < b[0]) {
      assert DecidesText(a, b, 0);
    } else if a != "" && b != "" && a[0] == b[0] {
      StrLessDecides(a[1..], b[1..]);
      if k: nat :| DecidesText(a[1..], b[1..], k) {
        assert a[..k + 1] == [a[0]] + a[1..][..k] && b[..k + 1] == [b[0]] + b[1..][..k];
        assert DecidesText(a, b, k + 1);
      }
      if k: nat :| DecidesText(a, b, k) {
        assert k > 0;
        assert a[1..][..k - 1] == a[..k][1..] && b[1..][..k - 1] == b[..k][1..];
        assert DecidesText(a[1..], b[1..], k - 1);
      }
    } else {
      assert forall k: nat :: 0 < k <= |a| && k < |b| ==> a[..k][0] == a[0] && b[..k][0] == b[0];
    }
  }

  lemma KeyLessDecides(a: Key, b: Key)
    ensures KeyLess(a, b) <==> KeyBefore(a, b)
  {
    if a.Name? && b.Name? {
      StrLessDecides(a.name, b.name);
    }
  }

  // ---------------------------------------------------------------- trees

  lemma {:induction false} EntriesLessDecides(es: seq<Entry>, fs: seq<Entry>)
    requires |es| == |fs|
    ensures EntriesLess(es, fs) <==> EntriesBefore(es, fs)
    decreases es, 0
  {
    if es != [] {
      var e, f := es[0], fs[0];
      KeyLessDecides(e.key, f.key);
      KeyLessDecides(f.key, e.key);
      KeyTrichotomy(e.key, f.key);
      assert e.value < e;
      LessIsBefore(e.value, f.value);
      Trichotomy(e.value, f.value);
      EqualIsIdentity(e.value, f.value);
      EntriesLessDecides(es[1..], fs[1..]);
      EntriesBeforeStep(es, fs);
    }
  }

  /** The first entry decides, or it is the same and the rest does. */
  lemma EntriesBeforeStep(es: seq<Entry>, fs: seq<Entry>)
    requires |es| == |fs| > 0
    ensures EntriesBefore(es, fs) <==>
              DecidesEntries(es, fs, 0) || (es[0] == fs[0] && EntriesBefore(es[1..], fs[1..]))
  {
    hide DecidesEntries;
    if k: nat :| k < |es| && DecidesEntries(es, fs, k) {
      if k > 0 {
        DecidesLater(es, fs, k - 1);
        assert DecidesEntries(es[1..], fs[1..], k - 1);
      }
    }
    if k: nat :| k < |es[1..]| && DecidesEntries(es[1..], fs[1..], k) {
      DecidesLater(es, fs, k);
    }
  }

  lemma DecidesLater(es: seq<Entry>, fs: seq<Entry>, k: nat)
    requires k + 1 < |es| == |fs|
    ensures DecidesEntries(es, fs, k + 1) <==> es[0] == fs[0] && DecidesEntries(es[1..], fs[1..], k)
  {
    hide Before, KeyBefore;
    assert es[..k + 1] == [es[0]] + es[1..][..k] && fs[..k + 1] == [fs[0]] + fs[1..][..k];
    assert es[..k + 1][1..] == es[1..][..k] && fs[..k + 1][1..] == fs[1..][..k];
  }

  /** operator< is that order, on all trees. */
  lemma {:induction false} LessIsBefore(a: Value, b: Value)
    ensures Less(a, b) <==> Before(a, b)
    decreases a, 1
  {
    match a
    case Str(s) =>
      if b.Str? {
        StrLessDecides(s, b.s);
      }
    case Arr(es) =>
      if b.Arr? && |es| == |b.items| {
        EntriesLessDecides(es, b.items);
      }
    case Obj(es) =>
      if b.Obj? && |es| == |b.members| {
        EntriesLessDecides(es, b.members);
      }
    case _ =>
  }

  /** Values of one scalar type. */
  lemma LessOnScalars(a: Value, b: Value)
    ensures a.Int? && b.Int? ==> (Less(a, b) <==> a.i < b.i)
    ensures a.UInt? && b.UInt? ==> (Less(a, b) <==> a.u < b.u)
    ensures a.Real? && b.Real? ==> (Less(a, b) <==> a.r < b.r)
    ensures a.Bool? && b.Bool? ==> (Less(a, b) <==> a == Bool(false) && b == Bool(true))
    ensures a.Str? && b.Str? ==>
              (Less(a, b) <==> exists k: nat :: k <= |a.s| && k < |b.s| && a.s[..k] == b.s[..k]
                                                && (k == |a.s| || a.s[k] < b.s[k]))
  {
    if a.Str? && b.Str? {
      StrLessDecides(a.s, b.s);
      assert forall k: nat :: DecidesText(a.s, b.s, k) <==>
               k <= |a.s| && k < |b.s| && a.s[..k] == b.s[..k] && (k == |a.s| || a.s[k] < b.s[k]);
    }
  }

  /** Containers of one type. */
  lemma LessOnContainers(a: Value, b: Value)
    ensures a.Arr? && b.Arr? ==> (Less(a, b) <==> FirstDifference(a.items, b.items))
    ensures a.Obj? && b.Obj? ==> (Less(a, b) <==> FirstDifference(a.members, b.members))
  {
    LessIsBefore(a, b);
    assert a.Arr? && b.Arr? ==> (Before(a, b) <==> FirstDifference(a.items, b.items));
    assert a.Obj? && b.Obj? ==> (Before(a, b) <==> FirstDifference(a.members, b.members));
  }

  /** Fewer entries, or as many, and in the first that differs a smaller key, or a smaller value at
      the same key. */
  ghost predicate FirstDifference(es: seq<Entry>, fs: seq<Entry>) {
    || |es| < |fs|
    || (|es| == |fs| && EntriesBefore(es, fs))
  }

  /** Values of different types. */
  lemma LessOnTypes(a: Value, b: Value)
    ensures a.Null? && !b.Null? ==> Less(a, b) && !Less(b, a)
    ensures a.Int? && !b.Null? && !b.Int? ==> Less(a, b) && !Less(b, a)
    ensures a.UInt? && (b.Real? || b.Str? || b.Bool? || b.Arr? || b.Obj?) ==> Less(a, b) && !Less(b, a)
    ensures a.Real? && (b.Str? || b.Bool? || b.Arr? || b.Obj?) ==> Less(a, b) && !Less(b, a)
    ensures a.Str? && (b.Bool? || b.Arr? || b.Obj?) ==> Less(a, b) && !Less(b, a)
    ensures a.Bool? && (b.Arr? || b.Obj?) ==> Less(a, b) && !Less(b, a)
    ensures a.Arr? && b.Obj? ==> Less(a, b) && !Less(b, a)
  {
  }
}

/** The operations of json/src/json_value.cpp that change a container in place: operator[],
    append and member access, over the sorted map the value owns. */
module JsonContainer {
  import opened JsonValue

  /** lower_bound of the sorted map. */
  function LowerBound(es: seq<Entry>, key: Key): (p: nat)
    ensures p <= |es|
    ensures forall k :: 0 <= k < p ==> KeyLess(es[k].key, key)
    ensures p < |es| ==> !KeyLess(es[p].key, key)
  {
    if es == [] || !KeyLess(es[0].key, key) then 0 else 1 + LowerBound(es[1..], key)
  }

  lemma LowerBoundStep(es: seq<Entry>, key: Key)
    ensures LowerBound(es, key) ==
            if es == [] || !KeyLess(es[0].key, key) then 0 else 1 + LowerBound(es[1..], key)
  {
  }

  /** Replacing the entry at the lower bound, or inserting one there, binds the key. */
  lemma {:induction false} PutAtLowerBound(es: seq<Entry>, key: Key, value: Value)
    ensures var p := LowerBound(es, key);
            Put(es, key, value) ==
            if p < |es| && es[p].key == key then es[p := Entry(key, value)]
            else es[..p] + [Entry(key, value)] + es[p..]
  {
    hide LowerBound, KeyLess;
    var e, p := Entry(key, value), LowerBound(es, key);
    LowerBoundStep(es, key);
    if es != [] && KeyLess(es[0].key, key) {
      var rest := es[1..];
      PutAtLowerBound(rest, key, value);
      if p < |es| && es[p].key == key {
        assert es[p := e] == [es[0]] + rest[p - 1 := e];
      } else {
        assert es[..p] + [e] + es[p..] == [es[0]] + (rest[..p - 1] + [e] + rest[p - 1..]);
      }
    } else {
      assert es[..0] + [e] + es[0..] == [e] + es;
    }
  }

  /** What a null or container value holds. */
  function Entries(v: Value): seq<Entry> {
    match v
    case Arr(es) => es
    case Obj(es) => es
    case _ => []
  }

  /** The entry a reference to a missing key is bound to. */
  function Referenced(es: seq<Entry>, key: Key): seq<Entry> {
    if Find(es, key) < |es| then es else Put(es, key, Null)
  }

  /** Appending puts the value behind the last slot and leaves every slot as it was. */
  lemma AppendGrows(es: seq<Entry>, v: Value)
    requires Valid(Arr(es))
    ensures var grown := Put(es, Index(ArraySize(es)), v);
            && ArraySize(grown) == ArraySize(es) + 1
            && forall i :: Lookup(grown, Index(i)) == if i == ArraySize(es) then v else Lookup(es, Index(i))
  {
    hide Lookup, Valid;
    var n := ArraySize(es);
    IndexesBelowSize(es);
    PutAtEnd(es, Index(n), v);
    forall i ensures Lookup(Put(es, Index(n), v), Index(i)) == if i == n then v else Lookup(es, Index(i)) {
      EntriesSorted(Arr(es));
      LookupAfterPut(es, Index(n), v, Index(i));
    }
  }

  lemma IndexesBelowSize(es: seq<Entry>)
    requires Valid(Arr(es))
    ensures forall k :: 0 <= k < |es| ==> KeyLess(es[k].key, Index(ArraySize(es)))
  {
    forall k | 0 <= k < |es| ensures KeyLess(es[k].key, Index(ArraySize(es))) {
      if k < |es| - 1 {
        assert KeyLess(es[k].key, es[|es| - 1].key);
      }
    }
  }

  lemma EntriesSorted(v: Value)
    requires Valid(v)
    ensures Sorted(Entries(v))
  {
  }

  lemma EmptyValid()
    ensures Valid(Null) && Valid(Arr([])) && Valid(Obj([]))
  {
  }

  /** JSON_ASSERT on the type; keys are C strings or unsigned. */
  predicate Accepts(v: Value, key: Key) {
    match key
    case Index(i) => 0 <= i && (v.Null? || v.Arr?)
    case Name(name) => '\0' !in name && (v.Null? || v.Obj?)
  }

  /** Binding a key keeps the container well-formed. */
  lemma PutValid(v: Value, key: Key, bound: Value)
    requires Valid(v) && Valid(bound) && Accepts(v, key)
    ensures var es := Put(Entries(v), key, bound);
            Valid(if key.Index? then Arr(es) else Obj(es))
  {
    var es := Put(Entries(v), key, bound);
    PutIsMapUpdate(Entries(v), key, bound);
    forall k | 0 <= k < |es|
      ensures Valid(es[k].value)
      ensures if key.Index? then es[k].key.Index? && es[k].key.index >= 0
              else es[k].key.Name? && '\0' !in es[k].key.name
    {
      assert es[k] in es;
    }
  }

  class Container {
    var value: Value

    constructor ()
      ensures value == Null
    {
      value := Null;
    }

    /** operator[]: a null value becomes a container, a missing key is bound to null; the
        position of the key is the reference. */
    method Reference(key: Key) returns (p: nat)
      requires Valid(value)
      requires Accepts(value, key)
      modifies this
      ensures Valid(value)
      ensures if key.Index? then value.Arr? else value.Obj?
      ensures Entries(value) == Referenced(old(Entries(value)), key)
      ensures p == LowerBound(old(Entries(value)), key)
      ensures p < |Entries(value)| && Entries(value)[p].key == key
    {
      hide Valid, Find, Put, LowerBound, KeyLess, Sorted;
      EntriesSorted(value);
      PutValid(value, key, Null);
      EmptyValid();
      if value.Null? {
        value := if key.Index? then Arr([]) else Obj([]);
      }
      var es := Entries(value);
      p := LowerBound(es, key);
      LowerBoundFinds(es, key);
      if p < |es| && es[p].key == key {
        return;
      }
      PutAtLowerBound(es, key, Null);
      es := es[..p] + [Entry(key, Null)] + es[p..];
      value := if key.Index? then Arr(es) else Obj(es);
    }

    /** Assignment through operator[]. */
    method Assign(key: Key, v: Value)
      requires Valid(value) && Valid(v) && Accepts(value, key)
      modifies this
      ensures Valid(value)
      ensures if key.Index? then value.Arr? else value.Obj?
      ensures Entries(value) == Put(old(Entries(value)), key, v)
    {
      ghost var was := Entries(value);
      PutValid(value, key, v);
      var p := Reference(key);
      var es := Entries(value);
      AssignedIsPut(was, es, key, v);
      es := es[p := Entry(key, v)];
      value := if key.Index? then Arr(es) else Obj(es);
    }

    /** (*this)[size()] = v */
    method Append(v: Value)
      requires Valid(value) && Valid(v) && (value.Null? || value.Arr?)
      modifies this
      ensures Valid(value)
      ensures value == Arr(Put(old(Entries(value)), Index(ArraySize(old(Entries(value)))), v))
    {
      var size := ArraySize(Entries(value));
      Assign(Index(size), v);
    }

    /** The names of the members, which come out in ascending order. */
    method GetMemberNames() returns (names: seq<string>)
      requires Valid(value) && (value.Null? || value.Obj?)
      ensures |names| == |Entries(value)|
      ensures forall k :: 0 <= k < |names| ==> Entries(value)[k].key == Name(names[k])
      ensures forall i, j :: 0 <= i < j < |names| ==> StrLess(names[i], names[j])
    {
      names := [];
      if value.Null? {
        return;
      }
      var es := Entries(value);
      for k := 0 to |es|
        invariant |names| == k
        invariant forall i :: 0 <= i < k ==> es[i].key == Name(names[i])
      {
        names := names + [es[k].key.name];
      }
      forall i, j | 0 <= i < j < |names| ensures StrLess(names[i], names[j]) {
        assert KeyLess(es[i].key, es[j].key);
      }
    }
  }

  lemma LowerBoundFinds(es: seq<Entry>, key: Key)
    requires Sorted(es)
    ensures var p := LowerBound(es, key);
            Find(es, key) < |es| <==> p < |es| && es[p].key == key
  {
    var p, q := LowerBound(es, key), Find(es, key);
    if q < |es| {
      KeyTrichotomy(key, key);
    }
  }

  lemma AssignedIsPut(was: seq<Entry>, es: seq<Entry>, key: Key, v: Value)
    requires Sorted(was) && es == Referenced(was, key)
    ensures var p := LowerBound(was, key);
            p < |es| && es[p := Entry(key, v)] == Put(was, key, v)
  {
    hide LowerBound, Find, Put, Sorted;
    var p := LowerBound(was, key);
    PutAtLowerBound(was, key, v);
    PutAtLowerBound(was, key, Null);
    LowerBoundFinds(was, key);
    if !(p < |was| && was[p].key == key) {
      var grown := was[..p] + [Entry(key, Null)] + was[p..];
      assert grown[p := Entry(key, v)] == was[..p] + [Entry(key, v)] + was[p..];
    }
  }
}

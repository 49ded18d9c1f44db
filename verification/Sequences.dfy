/** Edits of sequences without repetition. */
module Sequences {
  ghost predicate Distinct<A>(s: seq<A>) {
    forall i, j :: 0 <= i < j < |s| ==> s[i] != s[j]
  }

  /** The position of the first element with a property; |s| when there is none. */
  ghost function IndexWhere<X>(s: seq<X>, p: X -> bool): (k: nat)
    ensures k <= |s|
    ensures k < |s| ==> p(s[k])
    ensures forall i :: 0 <= i < k ==> !p(s[i])
  {
    if s == [] || p(s[0]) then 0 else 1 + IndexWhere(s[1..], p)
  }

  /** s with x put in at position k. */
  function InsertAt<A>(s: seq<A>, k: nat, x: A): (r: seq<A>)
    requires k <= |s|
    ensures |r| == |s| + 1 && r[k] == x
    ensures forall i :: 0 <= i < k ==> r[i] == s[i]
    ensures forall i :: k < i <= |s| ==> r[i] == s[i - 1]
  {
    s[..k] + [x] + s[k..]
  }

  /** s without the element at position k. */
  function RemoveAt<A>(s: seq<A>, k: nat): (r: seq<A>)
    requires k < |s|
    ensures |r| == |s| - 1
    ensures forall i :: 0 <= i < k ==> r[i] == s[i]
    ensures forall i :: k <= i < |r| ==> r[i] == s[i + 1]
  {
    s[..k] + s[k + 1..]
  }

  lemma OthersDiffer<A>(s: seq<A>, k: nat)
    requires Distinct(s) && k < |s|
    ensures forall i :: 0 <= i < |s| && i != k ==> s[i] != s[k]
  {
  }

  lemma InsertDistinct<A>(s: seq<A>, k: nat, x: A)
    requires Distinct(s) && k <= |s| && x !in s
    ensures Distinct(InsertAt(s, k, x))
  {
  }

  lemma RemoveDistinct<A>(s: seq<A>, k: nat)
    requires Distinct(s) && k < |s|
    ensures Distinct(RemoveAt(s, k)) && s[k] !in RemoveAt(s, k)
  {
  }
}

/** The doubly linked list of collections/linkedlist_fix.h: nodes in one block of memory,
    linked by their positions, which count from 1; position 0 is no node. */
module LinkedListsFix {
  import opened Sequences

  datatype Slot<T> = Slot(previous: int, next: int, value: T)

  ghost function Nth(chain: seq<int>, i: int): int {
    if 0 <= i < |chain| then chain[i] else 0
  }

  /** The slot of the node at a position. */
  ghost function At<T>(memory: seq<Slot<T>>, p: int): Slot<T>
    requires 1 <= p <= |memory|
  {
    memory[p - 1]
  }

  ghost function WithNext<T>(memory: seq<Slot<T>>, p: int, next: int): (now: seq<Slot<T>>)
    requires 1 <= p <= |memory|
    ensures |now| == |memory| && At(now, p) == At(memory, p).(next := next) && SameValues(memory, now)
    ensures forall o :: 1 <= o <= |memory| && o != p ==> At(now, o) == At(memory, o)
  {
    memory[p - 1 := memory[p - 1].(next := next)]
  }

  ghost function WithPrevious<T>(memory: seq<Slot<T>>, p: int, previous: int): (now: seq<Slot<T>>)
    requires 1 <= p <= |memory|
    ensures |now| == |memory| && At(now, p) == At(memory, p).(previous := previous) && SameValues(memory, now)
    ensures forall o :: 1 <= o <= |memory| && o != p ==> At(now, o) == At(memory, o)
  {
    memory[p - 1 := memory[p - 1].(previous := previous)]
  }

  /** Every position of the chain is in memory and linked to its neighbours on the chain;
      no position occurs twice, so that the links cannot run in circles. */
  ghost predicate Linked<T>(memory: seq<Slot<T>>, chain: seq<int>) {
    && Distinct(chain)
    && (forall i :: 0 <= i < |chain| ==> 1 <= chain[i] <= |memory|)
    && forall i :: 0 <= i < |chain| ==>
         At(memory, chain[i]).previous == Nth(chain, i - 1) && At(memory, chain[i]).next == Nth(chain, i + 1)
  }

  /** The position n links further on, 0 behind the end. */
  ghost function Follow<T>(memory: seq<Slot<T>>, p: int, n: nat, forward: bool): int
    decreases n
  {
    if n == 0 || !(1 <= p <= |memory|) then p
    else Follow(memory, if forward then At(memory, p).next else At(memory, p).previous, n - 1, forward)
  }

  /** Going forward from the first node and backward from the last both walk the whole chain
      and then end. */
  lemma {:induction false} WalksMirror<T>(memory: seq<Slot<T>>, chain: seq<int>, i: int, n: nat)
    requires Linked(memory, chain)
    ensures 0 <= i && i + n <= |chain| ==> Follow(memory, Nth(chain, i), n, true) == Nth(chain, i + n)
    ensures i < |chain| && i - n >= -1 ==> Follow(memory, Nth(chain, i), n, false) == Nth(chain, i - n)
    decreases n
  {
    hide Linked, Distinct;
    if n > 0 && 0 <= i < |chain| {
      LinksAt(memory, chain, i);
      WalksMirror(memory, chain, i + 1, n - 1);
      WalksMirror(memory, chain, i - 1, n - 1);
    }
  }

  /** Links may change, values do not. */
  ghost predicate SameValues<T>(memory: seq<Slot<T>>, now: seq<Slot<T>>) {
    |memory| == |now| && forall p :: 0 <= p < |now| ==> now[p].value == memory[p].value
  }

  /** Writing four links puts a node between the positions k and k + 1 of the chain. */
  lemma LinkedAfterInsert<T>(memory: seq<Slot<T>>, now: seq<Slot<T>>, chain: seq<int>, k: int, node: int)
    requires Linked(memory, chain) && |now| == |memory| && -1 <= k < |chain|
    requires 1 <= node <= |memory| && node !in chain
    requires At(now, node).previous == Nth(chain, k) && At(now, node).next == Nth(chain, k + 1)
    requires k >= 0 ==> At(now, chain[k]) == At(memory, chain[k]).(next := node)
    requires k + 1 < |chain| ==> At(now, chain[k + 1]) == At(memory, chain[k + 1]).(previous := node)
    requires forall p :: 1 <= p <= |memory| && p != node && p != Nth(chain, k) && p != Nth(chain, k + 1) ==>
               At(now, p) == At(memory, p)
    ensures Linked(now, InsertAt(chain, k + 1, node))
  {
    hide Distinct, InsertAt, At, Nth;
    InsertDistinct(chain, k + 1, node);
    var grown := InsertAt(chain, k + 1, node);
    forall i | 0 <= i < |grown|
      ensures 1 <= grown[i] <= |now|
      ensures At(now, grown[i]).previous == Nth(grown, i - 1) && At(now, grown[i]).next == Nth(grown, i + 1)
    {
      LinksAfterInsert(memory, now, chain, k, node, i);
    }
  }

  lemma LinksAfterInsert<T>(memory: seq<Slot<T>>, now: seq<Slot<T>>, chain: seq<int>, k: int, node: int, i: nat)
    requires Linked(memory, chain) && |now| == |memory| && -1 <= k < |chain|
    requires 1 <= node <= |memory| && node !in chain
    requires At(now, node).previous == Nth(chain, k) && At(now, node).next == Nth(chain, k + 1)
    requires k >= 0 ==> At(now, chain[k]) == At(memory, chain[k]).(next := node)
    requires k + 1 < |chain| ==> At(now, chain[k + 1]) == At(memory, chain[k + 1]).(previous := node)
    requires forall p :: 1 <= p <= |memory| && p != node && p != Nth(chain, k) && p != Nth(chain, k + 1) ==>
               At(now, p) == At(memory, p)
    requires i <= |chain|
    ensures var grown := InsertAt(chain, k + 1, node);
            && 1 <= grown[i] <= |now|
            && At(now, grown[i]).previous == Nth(grown, i - 1) && At(now, grown[i]).next == Nth(grown, i + 1)
  {
    hide Linked, Distinct, InsertAt;
    if i != k + 1 {
      var x := if i <= k then i else i - 1;
      LinksAt(memory, chain, x);
      assert InsertAt(chain, k + 1, node)[i] == chain[x];
    }
  }

  /** Linking the neighbours to each other takes the node at position k out of the chain. */
  lemma LinkedAfterRemove<T>(memory: seq<Slot<T>>, now: seq<Slot<T>>, chain: seq<int>, k: nat)
    requires Linked(memory, chain) && |now| == |memory| && k < |chain|
    requires k >= 1 ==> At(now, chain[k - 1]) == At(memory, chain[k - 1]).(next := Nth(chain, k + 1))
    requires k + 1 < |chain| ==> At(now, chain[k + 1]) == At(memory, chain[k + 1]).(previous := Nth(chain, k - 1))
    requires forall p :: 1 <= p <= |memory| && p != chain[k] && p != Nth(chain, k - 1) && p != Nth(chain, k + 1) ==>
               At(now, p) == At(memory, p)
    ensures Linked(now, RemoveAt(chain, k))
  {
    hide Distinct, RemoveAt, At;
    RemoveDistinct(chain, k);
    OthersDiffer(chain, k);
    if k >= 1 {
      OthersDiffer(chain, k - 1);
    }
    if k + 1 < |chain| {
      OthersDiffer(chain, k + 1);
    }
    var rest := RemoveAt(chain, k);
    forall i | 0 <= i < |rest|
      ensures 1 <= rest[i] <= |now|
      ensures At(now, rest[i]).previous == Nth(rest, i - 1) && At(now, rest[i]).next == Nth(rest, i + 1)
    {
      assert i < k ==> rest[i] == chain[i];
      assert i >= k ==> rest[i] == chain[i + 1];
    }
  }

  /** Taking out what was put in gives the positions back. */
  lemma RemoveUndoesAdd(chain: seq<int>, k: nat, node: int)
    requires k <= |chain|
    ensures RemoveAt(InsertAt(chain, k, node), k) == chain
  {
    hide *;
    assert forall i :: 0 <= i < |chain| ==> RemoveAt(InsertAt(chain, k, node), k)[i] == chain[i];
  }

  class LinkedListFix<T> {
    /** The memory behind the list header; the node at position p is nodes[p - 1]. */
    const nodes: array<Slot<T>>
    var first: int
    var last: int
    var count: int
    /** 0 leaves the positions unchecked. */
    var capacity: int
    /** The positions from first to last. */
    ghost var chain: seq<int>

    /** A position a node may have. */
    ghost predicate Usable(p: int)
      reads this
    {
      1 <= p <= (if capacity > 0 then capacity else nodes.Length)
    }

    ghost predicate Valid()
      reads this, nodes
    {
      && 0 <= capacity <= nodes.Length
      && count == |chain|
      && first == Nth(chain, 0)
      && last == Nth(chain, |chain| - 1)
      && (forall i :: 0 <= i < |chain| ==> Usable(chain[i]))
      && Linked(nodes[..], chain)
    }

    constructor (memory: array<Slot<T>>)
      ensures nodes == memory && capacity == 0
    {
      nodes := memory;
      first, last, count, capacity, chain := 0, 0, 0, 0, [];
    }

    method Initialize(capacity: int)
      requires 0 <= capacity <= nodes.Length
      modifies this
      ensures Valid() && this.capacity == capacity && chain == []
    {
      this.capacity := capacity;
      Clear();
    }

    method Clear()
      requires 0 <= capacity <= nodes.Length
      modifies this
      ensures Valid() && capacity == old(capacity) && chain == []
    {
      last, first, count := 0, 0, 0;
      chain := [];
    }

    /** The node at a position; 0 when the position is out of bounds. */
    function GetNode(position: int): (node: int)
      reads this
      ensures node != 0 <==> position > 0 && (capacity <= 0 || position <= capacity)
      ensures node != 0 ==> node == position
    {
      if position > 0 then
        if capacity > 0 && position > capacity then 0 else position
      else 0
    }

    function GetPosition(node: int): (position: int)
      reads this
      ensures capacity >= 0 ==> position == GetNode(node)
    {
      if node == 0 then 0
      else if node < 1 then 0
      else if capacity != 0 then if node > capacity then 0 else node
      else node
    }

    /** A position to be added is not linked yet, and an unchecked one lies in memory. */
    ghost predicate Addable(position: int)
      reads this
    {
      position !in chain && (capacity == 0 ==> position <= nodes.Length)
    }

    method SetNext(node: int, position: int)
      requires 1 <= node <= nodes.Length
      modifies nodes
      ensures nodes[..] == WithNext(old(nodes[..]), node, position)
    {
      nodes[node - 1] := nodes[node - 1].(next := position);
    }

    method SetPrevious(node: int, position: int)
      requires 1 <= node <= nodes.Length
      modifies nodes
      ensures nodes[..] == WithPrevious(old(nodes[..]), node, position)
    {
      nodes[node - 1] := nodes[node - 1].(previous := position);
    }

    method AddFirst(position: int) returns (ok: bool)
      requires Valid() && Addable(position)
      modifies this, nodes
      ensures Valid() && capacity == old(capacity) && SameValues(old(nodes[..]), nodes[..])
      ensures ok == old(Usable(position))
      ensures chain == if ok then [position] + old(chain) else old(chain)
    {
      hide Distinct, InsertAt, Linked, WithNext, WithPrevious;
      var node := GetNode(position);
      if node == 0 {
        return false;
      }
      ghost var memory := nodes[..];
      SetNext(node, 0);
      SetPrevious(node, 0);
      if first == 0 || last == 0 {
        last, first, count := GetPosition(node), GetPosition(node), 0;
      } else {
        var current := GetNode(first);
        SetNext(node, first);
        SetPrevious(current, GetPosition(node));
        first := GetPosition(node);
      }
      count := count + 1;
      LinkedAfterInsert(memory, nodes[..], chain, -1, node);
      assert [node] + chain == InsertAt(chain, 0, node);
      chain := InsertAt(chain, 0, node);
      return true;
    }

    method AddLast(position: int) returns (ok: bool)
      requires Valid() && Addable(position)
      modifies this, nodes
      ensures Valid() && capacity == old(capacity) && SameValues(old(nodes[..]), nodes[..])
      ensures ok == old(Usable(position))
      ensures chain == if ok then old(chain) + [position] else old(chain)
    {
      hide Distinct, InsertAt, Linked, WithNext, WithPrevious;
      var node := GetNode(position);
      if node == 0 {
        return false;
      }
      ghost var memory := nodes[..];
      if first == 0 || last == 0 {
        SetNext(node, 0);
        SetPrevious(node, 0);
        first, last, count := GetPosition(node), GetPosition(node), 0;
        count := count + 1;
        LinkedAfterInsert(memory, nodes[..], chain, -1, node);
        assert chain + [node] == InsertAt(chain, 0, node);
        chain := InsertAt(chain, 0, node);
        return true;
      } else {
        assert chain + [node] == InsertAt(chain, |chain|, node);
        ok := AddAfter(last, node, |chain| - 1);
      }
    }

    /** k is where the position stands in the chain. */
    method AddAfter(position: int, added: int, ghost k: nat) returns (ok: bool)
      requires Valid() && Addable(added)
      requires Usable(position) ==> k < |chain| && chain[k] == position
      requires capacity == 0 ==> position <= nodes.Length
      modifies this, nodes
      ensures Valid() && capacity == old(capacity) && SameValues(old(nodes[..]), nodes[..])
      ensures ok == old(Usable(position) && Usable(added))
      ensures chain == if ok then InsertAt(old(chain), k + 1, added) else old(chain)
    {
      hide Distinct, InsertAt, Linked, WithNext, WithPrevious;
      var node, value := GetNode(position), GetNode(added);
      if node == 0 || value == 0 {
        return false;
      }
      LinksAt(nodes[..], chain, k);
      LinkAfter(node, value, k);
      if GetPosition(node) == last {
        last := GetPosition(value);
      }
      count := count + 1;
      chain := InsertAt(chain, k + 1, value);
      return true;
    }

    /** value stands between node and the node after it. */
    method LinkAfter(node: int, value: int, ghost k: nat)
      requires Valid() && Usable(value) && value !in chain && k < |chain| && chain[k] == node
      modifies nodes
      ensures Linked(nodes[..], InsertAt(chain, k + 1, value)) && SameValues(old(nodes[..]), nodes[..])
    {
      hide Distinct, InsertAt, Linked, WithNext, WithPrevious;
      ghost var memory := nodes[..];
      LinksAt(memory, chain, k);
      SetNext(value, 0);
      SetPrevious(value, 0);
      var current := GetNode(nodes[node - 1].next);
      SetNext(node, GetPosition(value));
      if current != 0 {
        SetPrevious(current, GetPosition(value));
      }
      SetPrevious(value, GetPosition(node));
      SetNext(value, GetPosition(current));
      LinkedAfterInsert(memory, nodes[..], chain, k, value);
    }

    /** k is where the position stands in the chain. */
    method AddBefore(position: int, added: int, ghost k: nat) returns (ok: bool)
      requires Valid() && Addable(added)
      requires Usable(position) ==> k < |chain| && chain[k] == position
      requires capacity == 0 ==> position <= nodes.Length
      modifies this, nodes
      ensures Valid() && capacity == old(capacity) && SameValues(old(nodes[..]), nodes[..])
      ensures ok == old(Usable(position) && Usable(added))
      ensures chain == if ok then InsertAt(old(chain), k, added) else old(chain)
    {
      hide Distinct, InsertAt, Linked, WithNext, WithPrevious;
      var node, value := GetNode(position), GetNode(added);
      if node == 0 || value == 0 {
        return false;
      }
      LinksAt(nodes[..], chain, k);
      var current := GetNode(nodes[node - 1].previous);
      if current == 0 {
        assert [value] + chain == InsertAt(chain, 0, value);
        ok := AddFirst(value);
        return;
      }
      LinkBefore(node, value, current, k);
      if GetPosition(node) == first {
        // a node with a node before it is not the first
        assert false;
      }
      count := count + 1;
      chain := InsertAt(chain, k, value);
      return true;
    }

    /** value stands between current, the node before, and node. */
    method LinkBefore(node: int, value: int, current: int, ghost k: nat)
      requires Valid() && Usable(value) && value !in chain
      requires 0 < k < |chain| && chain[k] == node && chain[k - 1] == current
      modifies nodes
      ensures Linked(nodes[..], InsertAt(chain, k, value)) && SameValues(old(nodes[..]), nodes[..])
    {
      hide Distinct, InsertAt, Linked, WithNext, WithPrevious;
      ghost var memory := nodes[..];
      LinksAt(memory, chain, k);
      SetNext(value, 0);
      SetPrevious(value, 0);
      SetNext(current, GetPosition(value));
      SetPrevious(node, GetPosition(value));
      SetNext(value, GetPosition(node));
      SetPrevious(value, GetPosition(current));
      LinkedAfterInsert(memory, nodes[..], chain, k - 1, value);
    }

    /** The removed node's position; 0 when the list is empty. */
    method RemoveFirst() returns (removed: int)
      requires Valid()
      modifies this, nodes
      ensures Valid() && capacity == old(capacity) && SameValues(old(nodes[..]), nodes[..])
      ensures removed == old(first) && (removed != 0 <==> old(chain) != [])
      ensures chain == if old(chain) == [] then [] else old(chain)[1..]
    {
      hide Distinct, RemoveAt, Linked, WithNext, WithPrevious;
      var node := GetNode(first);
      if node == 0 {
        return 0;
      }
      ghost var memory := nodes[..];
      LinksAt(memory, chain, 0);
      var current := GetNode(nodes[node - 1].next);
      SetPrevious(node, 0);
      SetNext(node, 0);
      if current != 0 {
        SetPrevious(current, 0);
      }
      count := count - 1;
      if count <= 0 {
        count, first, last, current := 0, 0, 0, 0;
      }
      first := GetPosition(current);
      LinkedAfterRemove(memory, nodes[..], chain, 0);
      assert chain[1..] == RemoveAt(chain, 0);
      chain := RemoveAt(chain, 0);
      return node;
    }

    method RemoveLast() returns (removed: int)
      requires Valid()
      modifies this, nodes
      ensures Valid() && capacity == old(capacity) && SameValues(old(nodes[..]), nodes[..])
      ensures removed == old(last) && (removed != 0 <==> old(chain) != [])
      ensures chain == if old(chain) == [] then [] else old(chain)[..|old(chain)| - 1]
    {
      hide Distinct, RemoveAt, Linked, WithNext, WithPrevious;
      var node := GetNode(last);
      if node == 0 {
        return 0;
      }
      ghost var memory := nodes[..];
      ghost var k := |chain| - 1;
      LinksAt(memory, chain, k);
      var current := GetNode(nodes[node - 1].previous);
      SetPrevious(node, 0);
      SetNext(node, 0);
      if current != 0 {
        SetNext(current, 0);
      }
      count := count - 1;
      if count <= 0 {
        count, first, last, current := 0, 0, 0, 0;
      }
      last := GetPosition(current);
      LinkedAfterRemove(memory, nodes[..], chain, k);
      assert chain[..k] == RemoveAt(chain, k);
      chain := RemoveAt(chain, k);
      return node;
    }

    /** k is where the position stands in the chain. */
    method Remove(position: int, ghost k: nat) returns (ok: bool)
      requires Valid()
      requires Usable(position) ==> k < |chain| && chain[k] == position
      requires capacity == 0 ==> position <= nodes.Length
      modifies this, nodes
      ensures Valid() && capacity == old(capacity) && SameValues(old(nodes[..]), nodes[..])
      ensures ok == old(Usable(position))
      ensures chain == if ok then RemoveAt(old(chain), k) else old(chain)
    {
      hide Distinct, RemoveAt, Linked, WithNext, WithPrevious;
      var node := GetNode(position);
      if node == 0 {
        return false;
      }
      ghost var memory := nodes[..];
      LinksAt(memory, chain, k);
      if GetPosition(node) == first {
        assert chain[1..] == RemoveAt(chain, 0);
        var removed := RemoveFirst();
        return removed != 0;
      }
      if GetPosition(node) == last {
        assert chain[..|chain| - 1] == RemoveAt(chain, |chain| - 1);
        var removed := RemoveLast();
        return removed != 0;
      }
      var previous := GetNode(nodes[node - 1].previous);
      var next := GetNode(nodes[node - 1].next);
      SetNext(previous, nodes[node - 1].next);
      SetPrevious(next, nodes[node - 1].previous);
      count := count - 1;
      if count <= 0 {
        // an inner node has two neighbours
        assert false;
      }
      SetNext(node, 0);
      SetPrevious(node, 0);
      LinkedAfterRemove(memory, nodes[..], chain, k);
      chain := RemoveAt(chain, k);
      return true;
    }
  }

  /** Adding behind a node and removing what was added leaves the chain as it was. */
  method AddAndRemove<T>(list: LinkedListFix<T>, position: int, added: int, ghost k: nat)
    requires list.Valid() && list.Addable(added)
    requires list.Usable(position) ==> k < |list.chain| && list.chain[k] == position
    requires list.capacity == 0 ==> position <= list.nodes.Length
    modifies list, list.nodes
    ensures list.Valid() && list.chain == old(list.chain) && SameValues(old(list.nodes[..]), list.nodes[..])
  {
    hide Distinct, InsertAt, RemoveAt, Linked;
    var ok := list.AddAfter(position, added, k);
    if ok {
      RemoveUndoesAdd(old(list.chain), k + 1, added);
      ok := list.Remove(added, k + 1);
    }
  }

  /** The links of the node at position k of the chain; its neighbours are other nodes, and
      the ends of the chain are where the neighbours are missing. */
  lemma LinksAt<T>(memory: seq<Slot<T>>, chain: seq<int>, k: nat)
    requires Linked(memory, chain) && k < |chain|
    ensures 1 <= chain[k] <= |memory|
    ensures memory[chain[k] - 1].previous == Nth(chain, k - 1) && memory[chain[k] - 1].next == Nth(chain, k + 1)
    ensures Nth(chain, k - 1) != chain[k] && Nth(chain, k + 1) != chain[k]
    ensures Nth(chain, k - 1) == Nth(chain, k + 1) ==> |chain| == 1
    ensures forall i :: 0 <= i < |chain| && i != k ==> chain[i] != chain[k]
  {
    assert At(memory, chain[k]) == memory[chain[k] - 1];
  }
}

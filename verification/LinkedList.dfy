/** The doubly linked list of collections/linkedlist.h: nodes on the heap, relinked in place. */
module LinkedLists {
  import opened Sequences

  class Node<T(==)> {
    var previous: Node?<T>
    var next: Node?<T>
    var value: T
    var owner: LinkedList?<T>

    constructor (value: T)
      ensures this.value == value
    {
      this.value := value;
      previous, next, owner := null, null, null;
    }
  }

  class LinkedList<T(==)> {
    var first: Node?<T>
    var last: Node?<T>
    var count: int
    /** The nodes from first to last. */
    ghost var spine: seq<Node<T>>

    ghost function Before(i: int): Node?<T>
      requires i <= |spine|
      reads this
    {
      if 0 < i then spine[i - 1] else null
    }

    ghost function After(i: int): Node?<T>
      requires -1 <= i
      reads this
    {
      if i + 1 < |spine| then spine[i + 1] else null
    }

    /** first and last are the ends of the spine, neighbours on the spine point at each
        other, and count is its length. */
    ghost predicate Valid()
      reads this, spine
    {
      && count == |spine|
      && first == After(-1)
      && last == Before(|spine|)
      && Distinct(spine)
      && forall i :: 0 <= i < |spine| ==> Linked(i)
    }

    ghost predicate Linked(i: nat)
      requires i < |spine|
      reads this, spine
    {
      spine[i].previous == Before(i) && spine[i].next == After(i) && spine[i].owner == this
    }

    constructor ()
      ensures Valid() && spine == []
    {
      first, last, count, spine := null, null, 0, [];
    }

    method AddFirst(value: Node?<T>) returns (ok: bool)
      requires Valid() && (value != null ==> value !in spine)
      modifies this, spine`previous, Block(value)`previous, Block(value)`next, Block(value)`owner
      ensures Valid() && ok == (value != null)
      ensures spine == if value == null then old(spine) else [value] + old(spine)
    {
      if value == null {
        return false;
      }
      value.owner, value.next, value.previous := null, null, null;
      if last == null {
        last, first, count := value, value, 0;
      } else {
        var current := first;
        value.next := current;
        current.previous := value;
        first := value;
      }
      count := count + 1;
      value.owner := this;
      ghost var was := spine;
      spine := [value] + spine;
      forall i | 0 <= i < |spine| ensures Linked(i) {
        if i > 0 {
          assert old(Linked(i - 1));
          assert spine[i] == was[i - 1];
        }
      }
      return true;
    }

    method AddLast(node: Node?<T>) returns (ok: bool)
      requires Valid() && (node != null ==> node !in spine)
      modifies this, spine`next, spine`previous, Block(node)`previous, Block(node)`next, Block(node)`owner
      ensures Valid() && ok == (node != null)
      ensures spine == if node == null then old(spine) else old(spine) + [node]
    {
      if node == null {
        return false;
      }
      node.owner, node.next, node.previous := null, null, null;
      if last == null {
        first, last, count := node, node, 0;
        count := count + 1;
        node.owner := this;
        spine := [node];
        return true;
      } else {
        ok := AddAfter(last, node, |spine| - 1);
        assert spine == old(spine) + [node];
      }
    }

    /** k is the position of node. */
    method AddAfter(node: Node?<T>, value: Node?<T>, ghost k: nat) returns (ok: bool)
      requires Valid() && (value != null ==> value !in spine)
      requires node != null ==> k < |spine| && spine[k] == node
      modifies this, spine`next, spine`previous, Block(value)`previous, Block(value)`next, Block(value)`owner
      ensures Valid() && ok == (node != null && value != null)
      ensures spine == if ok then InsertAt<Node<T>>(old(spine), k + 1, value) else old(spine)
    {
      hide Distinct, InsertAt;
      if node == null || value == null {
        return false;
      }
      ghost var was := spine;
      Link(node, value, k);
      if node == last {
        last := value;
      }
      count := count + 1;
      value.owner := this;
      spine := InsertAt<Node<T>>(was, k + 1, value);
      InsertDistinct<Node<T>>(was, k + 1, value);
      forall i | 0 <= i < |spine| ensures Linked(i) {
        if i <= k {
          assert old(Linked(i)) && spine[i] == was[i];
        } else if i >= k + 2 {
          assert old(Linked(i - 1)) && spine[i] == was[i - 1];
        }
      }
      return true;
    }

    /** The value stands between node and the node after it. */
    method Link(node: Node<T>, value: Node<T>, ghost k: nat)
      requires Valid() && k < |spine| && spine[k] == node && value !in spine
      modifies spine`next, spine`previous, value`next, value`previous, value`owner
      ensures node.next == value && value.previous == node && value.next == After(k)
      ensures k + 1 < |spine| ==> spine[k + 1].previous == value
      ensures forall i :: 0 <= i < |spine| && i != k ==> spine[i].next == old(spine[i].next)
      ensures forall i :: 0 <= i < |spine| && i != k + 1 ==> spine[i].previous == old(spine[i].previous)
    {
      hide Distinct;
      assert Linked(k);
      OthersDiffer(spine, k);
      if k + 1 < |spine| {
        OthersDiffer(spine, k + 1);
      }
      value.owner, value.next, value.previous := null, null, null;
      var current := node.next;
      node.next := value;
      if current != null {
        current.previous := value;
      }
      value.previous := node;
      value.next := current;
    }

    method RemoveFirst() returns (ok: bool)
      requires Valid()
      modifies this, spine`next, spine`previous, spine`owner
      ensures Valid() && ok == (old(spine) != [])
      ensures spine == if ok then old(spine)[1..] else []
      ensures ok ==> Detached(old(spine)[0])
    {
      hide Distinct, RemoveAt;
      if first == null {
        return false;
      }
      ghost var was := spine;
      RemoveDistinct(was, 0);
      assert Linked(0);
      OthersDiffer(was, 0);
      var removed := first;
      var current := removed.next;
      removed.previous, removed.owner, removed.next := null, null, null;
      if current != null {
        OthersDiffer(was, 1);
        current.previous := null;
      }
      count := count - 1;
      if count <= 0 {
        count, first, last, current := 0, null, null, null;
      }
      first := current;
      assert was[1..] == RemoveAt(was, 0);
      spine := RemoveAt(was, 0);
      forall i | 0 <= i < |spine| ensures Linked(i) {
        assert spine[i] == was[i + 1];
        assert old(Linked(i + 1));
      }
      return true;
    }

    method RemoveLast() returns (ok: bool)
      requires Valid()
      modifies this, spine`next, spine`previous, spine`owner
      ensures Valid() && ok == (old(spine) != [])
      ensures spine == if ok then old(spine)[..|old(spine)| - 1] else []
      ensures ok ==> Detached(old(spine)[|old(spine)| - 1])
    {
      hide Distinct, RemoveAt;
      if last == null {
        return false;
      }
      ghost var was := spine;
      ghost var k := |spine| - 1;
      RemoveDistinct(was, k);
      assert Linked(k);
      OthersDiffer(was, k);
      var removed := last;
      var current := removed.previous;
      removed.previous, removed.owner, removed.next := null, null, null;
      if current != null {
        OthersDiffer(was, k - 1);
        current.next := null;
      }
      count := count - 1;
      if count <= 0 {
        count, first, last, current := 0, null, null, null;
      }
      last := current;
      assert was[..k] == RemoveAt(was, k);
      spine := RemoveAt(was, k);
      forall i | 0 <= i < |spine| ensures Linked(i) {
        assert old(Linked(i)) && spine[i] == was[i];
      }
      return true;
    }

    /** k is the position of node. */
    method Remove(node: Node?<T>, ghost k: nat) returns (ok: bool)
      requires Valid()
      requires node != null ==> k < |spine| && spine[k] == node
      modifies this, spine`next, spine`previous, spine`owner
      ensures Valid() && ok == (node != null)
      ensures spine == if ok then RemoveAt(old(spine), k) else old(spine)
      ensures ok ==> Detached(node)
    {
      if node == null {
        return false;
      }
      hide Distinct;
      ghost var was := spine;
      assert Linked(k);
      OthersDiffer(was, k);
      if node == first {
        ok := RemoveFirst();
        assert spine == RemoveAt(was, k);
        return;
      }
      if node == last {
        ok := RemoveLast();
        assert spine == RemoveAt(was, k);
        return;
      }
      RemoveDistinct(was, k);
      Unlink(node, k);
      count := count - 1;
      if count <= 0 {
        // an inner node has two neighbours
        assert false;
      }
      node.next, node.previous, node.owner := null, null, null;
      spine := RemoveAt(was, k);
      forall i | 0 <= i < |spine| ensures Linked(i) {
        assert old(Linked(if i < k then i else i + 1));
      }
      return true;
    }

    /** The neighbours of an inner node are linked to each other. */
    method Unlink(node: Node<T>, ghost k: nat)
      requires Valid() && 0 < k < |spine| - 1 && spine[k] == node
      modifies spine`next, spine`previous
      ensures spine[k - 1].next == spine[k + 1] && spine[k + 1].previous == spine[k - 1]
      ensures forall i :: 0 <= i < |spine| && i != k - 1 ==> spine[i].next == old(spine[i].next)
      ensures forall i :: 0 <= i < |spine| && i != k + 1 ==> spine[i].previous == old(spine[i].previous)
    {
      hide Distinct;
      OthersDiffer(spine, k - 1);
      OthersDiffer(spine, k + 1);
      assert Linked(k) && Linked(k - 1) && Linked(k + 1);
      var previous := node.previous;
      var next := node.next;
      previous.next := next;
      next.previous := previous;
    }

    /** The first node that holds the value. */
    method Find(value: T) returns (found: Node?<T>, ghost k: nat)
      requires Valid()
      ensures k <= |spine| && found == After(k - 1)
      ensures found != null ==> found.value == value
      ensures forall i :: 0 <= i < k ==> spine[i].value != value
    {
      var i := first;
      k := 0;
      while i != null
        invariant k <= |spine| && i == After(k - 1)
        invariant forall j :: 0 <= j < k ==> spine[j].value != value
        decreases |spine| - k
      {
        if i.value == value {
          return i, k;
        }
        assert Linked(k);
        i, k := i.next, k + 1;
      }
      return null, k;
    }

    method Clear()
      requires Valid()
      modifies this, spine`next, spine`previous, spine`owner
      ensures Valid() && spine == []
      ensures forall n :: n in old(spine) ==> Detached(n)
    {
      var i := first;
      ghost var k := 0;
      forall j | 0 <= j < |spine| ensures spine[j].next == After(j) {
        assert Linked(j);
      }
      while i != null
        invariant 0 <= k <= |spine| && spine == old(spine) && Distinct(spine)
        invariant i == After(k - 1)
        invariant forall j :: 0 <= j < k ==> Detached(spine[j])
        invariant forall j :: k <= j < |spine| ==> spine[j].next == After(j)
        decreases |spine| - k
      {
        OthersDiffer(spine, k);
        var j := i.next;
        i.owner, i.next, i.previous := null, null, null;
        i, k := j, k + 1;
      }
      first, count, last := null, 0, null;
      spine := [];
    }

    /** memset of the whole list: the nodes keep their links. */
    method Reset()
      modifies this
      ensures Valid() && spine == []
    {
      first, last, count, spine := null, null, 0, [];
    }
  }

  /** The node points nowhere and belongs to no list. */
  ghost predicate Detached<T>(node: Node<T>)
    reads node
  {
    node.next == null && node.previous == null && node.owner == null
  }

  ghost function Block<T>(node: Node?<T>): set<Node<T>> {
    if node == null then {} else {node}
  }
}

/** The set of collections/ConcurrentSet.h: a table, a doubly linked list and a set of nodes in
    use, kept in agreement, and the enumerators over it. */
module ConcurrentSets {
  import opened Common
  import opened CursorRuns
  import opened LinkedLists
  import opened Sequences

  /** The addresses of the entries. */
  ghost function Nodes<A, T>(order: seq<Entry<A, T>>): set<A> {
    set i | 0 <= i < |order| :: order[i].node
  }

  /** The table leads from every value to its node, and the nodes in use are those of the
      entries. */
  ghost predicate Indexed<A, T>(order: seq<Entry<A, T>>, table: map<T, A>, available: set<A>) {
    && table.Keys == Members(order)
    && available == Nodes(order)
    && forall i :: 0 <= i < |order| ==> order[i].value in Members(order) && table[order[i].value] == order[i].node
  }

  lemma NodesAreLive<A, T>(order: seq<Entry<A, T>>, node: A)
    ensures node in Nodes(order) <==> Live(order, node)
  {
    hide Place;
  }

  lemma EmptyIndexed<A, T>(clock: nat)
    ensures Ordered<A, T>([], clock) && Indexed<A, T>([], map[], {})
  {
  }

  lemma IndexedKeys<A, T>(order: seq<Entry<A, T>>, table: map<T, A>, available: set<A>)
    requires Indexed(order, table, available)
    ensures table.Keys == Members(order) && available == Nodes(order)
  {
  }

  lemma InsertIndexed<A, T>(order: seq<Entry<A, T>>, clock: nat, table: map<T, A>, available: set<A>, value: T, node: A)
    requires Ordered(order, clock) && Indexed(order, table, available) && !Contains(order, value)
    ensures Indexed(Inserted(order, clock, value, Some(node)), table[value := node], available + {node})
  {
    hide Position, Precedes, Members;
    var grown := Inserted(order, clock, value, Some(node));
    RefinesSet(order, clock, value, Some(node));
    MembersAre(order, value);
    assert grown[|order|].node == node;
    forall i | 0 <= i < |order| ensures order[i].node in Nodes(grown) {
      assert grown[i] == order[i];
    }
  }

  lemma RemoveIndexed<A, T>(order: seq<Entry<A, T>>, clock: nat, table: map<T, A>, available: set<A>, value: T)
    requires Ordered(order, clock) && Indexed(order, table, available) && Contains(order, value)
    ensures var k := Position(order, value);
            Indexed(Removed(order, value), table - {value}, available - {order[k].node})
  {
    hide Position, RemoveAt, Members;
    RefinesSet(order, clock, value, None);
    var k, rest := Position(order, value), Removed(order, value);
    forall i | 0 <= i < |order| && i != k ensures order[i].node in Nodes(rest) && order[i].node != order[k].node {
      assert if i < k then Precedes(order[i], order[k]) else Precedes(order[k], order[i]);
      assert rest[if i < k then i else i - 1] == order[i];
    }
    forall i | 0 <= i < |rest|
      ensures rest[i].node in Nodes(order) && rest[i].node != order[k].node
      ensures rest[i].value in Members(order) && rest[i].value != value && table[rest[i].value] == rest[i].node
    {
      var j := if i < k then i else i + 1;
      assert rest[i] == order[j];
      assert j != k;
      assert if j < k then Precedes(order[j], order[k]) else Precedes(order[k], order[j]);
    }
  }

  ghost function Address<T>(node: Node?<T>): Option<Node<T>> {
    if node == null then None else
    var there: Node<T> := node;
    Some(there)
  }

  class ConcurrentSet<T(==)> {
    const list: LinkedList<T>
    var table: map<T, Node<T>>
    var available: set<Node<T>>
    ghost var order: seq<Entry<Node<T>, T>>
    ghost var clock: nat

    /** List, table and node set describe the entries of order. */
    ghost predicate Valid()
      reads this, list, list.spine
    {
      && list.Valid()
      && Ordered(order, clock)
      && OnList()
      && Indexed(order, table, available)
    }

    ghost predicate OnList()
      reads this, list, list.spine
    {
      |order| == |list.spine|
      && forall i :: 0 <= i < |order| ==> list.spine[i] == order[i].node && order[i].node.value == order[i].value
    }

    constructor ()
      ensures Valid() && order == [] && fresh(list)
    {
      list := new LinkedList();
      table, available, order, clock := map[], {}, [], 0;
    }

    method GetCount() returns (count: int)
      requires Valid()
      ensures count == |order| == |Members(order)|
    {
      CountIsCardinality(order, clock);
      count := list.count;
    }

    method ContainsKey(value: T) returns (found: bool)
      requires Valid()
      ensures found == Contains(order, value)
    {
      MembersAre(order, value);
      found := value in table;
    }

    /** block is the memory the allocator hands out, null when it has none. */
    method Insert(value: T, block: Node?<T>) returns (ok: bool)
      requires Valid() && (block != null ==> block !in available && block !in list.spine)
      modifies this, list, list.spine`next, list.spine`previous, Block(block)
      ensures Valid() && clock == old(clock) + 1
      ensures ok == (!Contains(old(order), value) && block != null)
      ensures order == Inserted(old(order), old(clock), value, Address(block))
    {
      hide Place, Position, Indexed, Ordered;
      ghost var was := order;
      clock := clock + 1;
      InsertedOrdered(was, clock - 1, value, Address(block));
      assert table.Keys == Members(was) by { IndexedKeys(was, table, available); }
      MembersAre(was, value);
      if value in table {
        return false;
      }
      if block == null {
        return false;
      }
      InsertIndexed<Node<T>, T>(was, clock - 1, table, available, value, block);
      block.value := value;
      table := table[value := block];
      var added := list.AddLast(block);
      available := available + {block};
      order := was + [Entry(block, value, clock - 1)];
      return true;
    }

    method Remove(value: T) returns (ok: bool)
      requires Valid()
      modifies this, list, list.spine
      ensures Valid() && clock == old(clock)
      ensures ok == Contains(old(order), value)
      ensures order == Removed(old(order), value)
    {
      hide Place, Position, Indexed, Ordered, RemoveAt, Distinct;
      ghost var was := order;
      ghost var k := Position(was, value);
      assert table.Keys == Members(was) by { IndexedKeys(was, table, available); }
      MembersAre(was, value);
      if value !in table {
        return false;
      }
      assert table[value] == was[k].node by { IndexedAt(was, table, available, k); }
      RemoveIndexed(was, clock, table, available, value);
      RemovedOrdered(was, clock, value);
      RemoveDistinct(list.spine, k);
      var node := table[value];
      var removed := list.Remove(node, k);
      available := available - {node};
      table := table - {value};
      ghost var rest := Removed(was, value);
      forall i | 0 <= i < |rest|
        ensures list.spine[i] == rest[i].node && rest[i].node != node && rest[i].node.value == rest[i].value
      {
        assert rest[i] == was[if i < k then i else i + 1];
        assert list.spine[i] == old(list.spine)[if i < k then i else i + 1];
        assert list.spine[i] in list.spine;
      }
      DeleteEntry(node);
      order := rest;
      assert list.Valid() && OnList();
      return true;
    }

    /** free: from here on the node may hold anything. */
    static method DeleteEntry(entry: Node?<T>)
      modifies Block(entry)
    {
      if entry != null {
        modify entry;
      }
    }

    method Clear()
      requires Valid()
      modifies this, list, list.spine
      ensures Valid() && order == [] && clock == old(clock)
    {
      hide Distinct, Ordered, Indexed, Place, RemoveAt;
      var node := list.first;
      ghost var k, spine := 0, list.spine;
      assert Distinct(spine);
      forall j | 0 <= j < |spine| ensures spine[j].next == list.After(j) {
        assert list.Linked(j);
      }
      while node != null
        invariant 0 <= k <= |spine| && list.spine == spine && clock == old(clock)
        invariant node == list.After(k - 1)
        invariant forall j :: k <= j < |spine| ==> spine[j].next == list.After(j)
        decreases |spine| - k
      {
        OthersDiffer(spine, k);
        var current := node;
        node, k := node.next, k + 1;
        DeleteEntry(current);
      }
      table, available := map[], {};
      list.Reset();
      order := [];
      EmptyIndexed<Node<T>, T>(clock);
    }

    method GetFirst() returns (node: Node?<T>)
      requires Valid()
      ensures node == if order == [] then null else order[0].node
    {
      if 0 >= list.count {
        return null;
      }
      return list.first;
    }

    method GetLast() returns (node: Node?<T>)
      requires Valid()
      ensures node == if order == [] then null else order[|order| - 1].node
    {
      if 0 >= list.count {
        return null;
      }
      return list.last;
    }

    /** Whether the address is that of an entry; the node itself is not read. */
    method IsAvailableEntry(entry: Node?<T>) returns (live: bool)
      requires Valid()
      ensures live == (entry != null && Live(order, entry))
    {
      hide Place, Ordered;
      if entry == null {
        return false;
      }
      NodesAreLive<Node<T>, T>(order, entry);
      if list.count <= 0 {
        return false;
      }
      return entry in available;
    }

    lemma Neighbours(node: Node<T>)
      requires Valid() && Live(order, node)
      ensures var k := Place(order, node);
              node.next == list.After(k) && node.previous == list.Before(k)
    {
      hide Place, Ordered, Indexed, Distinct;
      assert list.Linked(Place(order, node));
    }
  }

  lemma IndexedAt<A, T>(order: seq<Entry<A, T>>, table: map<T, A>, available: set<A>, k: nat)
    requires Indexed(order, table, available) && k < |order|
    ensures order[k].value in table && table[order[k].value] == order[k].node
  {
  }

  /** A cursor over a set: the address of an entry, followed only while it is in use. */
  class Enumerator<T(==)> {
    const set_: ConcurrentSet?<T>
    var rst: bool
    var current: Node?<T>

    ghost function Position(): Cursor<Node<T>>
      reads this
    {
      Cursor(rst, Address(current))
    }

    constructor (owner: ConcurrentSet?<T>)
      ensures set_ == owner && Position() == Cursor(true, None)
    {
      set_, rst, current := owner, true, null;
    }

    method Reset()
      modifies this
      ensures Position() == Cursor(true, None)
    {
      rst, current := true, null;
    }

    method GetCurrent() returns (value: Option<T>)
      requires set_ != null ==> set_.Valid()
      modifies this
      ensures set_ == null ==> value == None && Position() == old(Position())
      ensures set_ != null ==>
                Position() == Looked(set_.order, old(Position()))
                && value == (if Position().current.None? then None
                             else Some(set_.order[Place(set_.order, current)].value))
    {
      hide Place, Ordered, Indexed;
      if set_ == null {
        return None;
      }
      if current == null {
        return None;
      }
      var live := set_.IsAvailableEntry(current);
      if !live {
        current := null;
        return None;
      }
      return Some(current.value);
    }

    method MoveNext() returns (ok: bool)
      requires set_ != null ==> set_.Valid()
      modifies this
      ensures set_ == null ==> !ok && Position() == old(Position())
      ensures set_ != null ==>
                Position() == Forward(set_.order, old(Position())) && ok == Position().current.Some?
    {
      hide Place, Ordered, Indexed;
      if set_ == null {
        return false;
      }
      if rst {
        rst := false;
        current := set_.GetFirst();
        return current != null;
      }
      if current == null {
        return false;
      }
      var live := set_.IsAvailableEntry(current);
      if !live {
        current := null;
      } else {
        set_.Neighbours(current);
        current := current.next;
      }
      return current != null;
    }

    /** operator-- */
    method MoveBack()
      requires set_ != null ==> set_.Valid()
      modifies this
      ensures Position() == if set_ == null then old(Position()) else Backward(set_.order, old(Position()))
    {
      hide Place, Ordered, Indexed;
      if set_ == null {
        return;
      }
      if rst {
        rst := false;
        current := set_.GetLast();
        return;
      }
      if current == null {
        return;
      }
      var live := set_.IsAvailableEntry(current);
      if !live {
        current := null;
      } else {
        set_.Neighbours(current);
        current := current.previous;
      }
    }
  }
}

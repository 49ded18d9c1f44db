/** What the cursors of collections/ConcurrentSet.h promise over whole runs: a set is the
    sequence of its entries in the order of insertion, and a cursor holds the address of an
    entry. Every entry carries a stamp, the number of calls of Insert before it. */
module CursorRuns {
  import opened Common
  import opened Sequences

  datatype Entry<A, T> = Entry(node: A, value: T, stamp: nat)

  datatype Cursor<A> = Cursor(rst: bool, current: Option<A>)

  // ---------------------------------------------------------------- the set

  /** The position of the entry at an address; |order| when there is none. */
  ghost function Place<A, T>(order: seq<Entry<A, T>>, node: A): (k: nat)
    ensures k <= |order|
    ensures k < |order| ==> order[k].node == node
    ensures forall i :: 0 <= i < k ==> order[i].node != node
  {
    IndexWhere(order, (e: Entry<A, T>) => e.node == node)
  }

  /** The position of the entry with a value; |order| when there is none. */
  ghost function Position<A, T>(order: seq<Entry<A, T>>, value: T): (k: nat)
    ensures k <= |order|
    ensures k < |order| ==> order[k].value == value
    ensures forall i :: 0 <= i < k ==> order[i].value != value
  {
    IndexWhere(order, (e: Entry<A, T>) => e.value == value)
  }

  ghost predicate Live<A, T>(order: seq<Entry<A, T>>, node: A) {
    Place(order, node) < |order|
  }

  ghost predicate Contains<A, T>(order: seq<Entry<A, T>>, value: T) {
    Position(order, value) < |order|
  }

  /** Strictly ascending stamps. */
  ghost predicate Ascending<A, T>(entries: seq<Entry<A, T>>) {
    forall i, j :: 0 <= i < j < |entries| ==> entries[i].stamp < entries[j].stamp
  }

  /** Inserted earlier, at another address, with another value. */
  ghost predicate Precedes<A, T>(a: Entry<A, T>, b: Entry<A, T>) {
    a.stamp < b.stamp && a.node != b.node && a.value != b.value
  }

  /** No address and no value occurs twice, and the order is that of insertion. */
  ghost predicate Ordered<A, T>(order: seq<Entry<A, T>>, clock: nat) {
    && (forall i, j :: 0 <= i < j < |order| ==> Precedes(order[i], order[j]))
    && (forall i :: 0 <= i < |order| ==> order[i].stamp < clock)
  }

  ghost function Inserted<A, T>(order: seq<Entry<A, T>>, clock: nat, value: T, block: Option<A>): seq<Entry<A, T>> {
    if Contains(order, value) || block.None? then order else order + [Entry(block.value, value, clock)]
  }

  ghost function Removed<A, T>(order: seq<Entry<A, T>>, value: T): seq<Entry<A, T>> {
    var k := Position(order, value);
    if k < |order| then RemoveAt(order, k) else order
  }

  lemma PlaceAt<A, T>(order: seq<Entry<A, T>>, clock: nat, k: nat)
    requires Ordered(order, clock) && k < |order|
    ensures Place(order, order[k].node) == k && Position(order, order[k].value) == k
  {
    hide Place, Position;
    var i, j := Place(order, order[k].node), Position(order, order[k].value);
    assert i < k ==> Precedes(order[i], order[k]);
    assert j < k ==> Precedes(order[j], order[k]);
  }

  lemma InsertedOrdered<A, T>(order: seq<Entry<A, T>>, clock: nat, value: T, block: Option<A>)
    requires Ordered(order, clock) && (block.Some? ==> !Live(order, block.value))
    ensures Ordered(Inserted(order, clock, value, block), clock + 1)
  {
    hide Place, Position;
  }

  lemma RemovedOrdered<A, T>(order: seq<Entry<A, T>>, clock: nat, value: T)
    requires Ordered(order, clock)
    ensures Ordered(Removed(order, value), clock)
  {
    hide Place, Position, Precedes, RemoveAt;
  }

  /** The set of values of the entries. */
  ghost function Members<A, T>(order: seq<Entry<A, T>>): set<T> {
    set i | 0 <= i < |order| :: order[i].value
  }

  lemma MembersAre<A, T>(order: seq<Entry<A, T>>, value: T)
    ensures value in Members(order) <==> Contains(order, value)
  {
    hide Position;
  }

  /** Insert and Remove are those of a mathematical set; Insert needs memory. */
  lemma RefinesSet<A, T>(order: seq<Entry<A, T>>, clock: nat, value: T, block: Option<A>)
    requires Ordered(order, clock)
    ensures Members(Inserted(order, clock, value, block)) == Members(order) + (if block.Some? then {value} else {})
    ensures Members(Removed(order, value)) == Members(order) - {value}
  {
    hide Position, RemoveAt;
    var added, rest := Inserted(order, clock, value, block), Removed(order, value);
    MembersAre(order, value);
    if added != order {
      assert added[|order|].value == value;
      forall i | 0 <= i < |order| ensures order[i].value in Members(added) {
        assert added[i] == order[i];
      }
    }
    var k := Position(order, value);
    forall i | 0 <= i < |order| && i != k ensures order[i].value in Members(rest) && order[i].value != value {
      if k < |order| {
        assert i < k ==> Precedes(order[i], order[k]);
        assert k < i ==> Precedes(order[k], order[i]);
        assert rest[if i < k then i else i - 1] == order[i];
      }
    }
    forall i | 0 <= i < |rest| ensures rest[i].value in Members(order) && rest[i].value != value {
      var j := if k < |order| && k <= i then i + 1 else i;
      assert rest[i] == order[j];
      assert j != k;
    }
  }

  lemma MembersSnoc<A, T>(front: seq<Entry<A, T>>, last: Entry<A, T>)
    ensures Members(front + [last]) == Members(front) + {last.value}
  {
    var order := front + [last];
    forall i | 0 <= i < |front| ensures front[i].value in Members(order) {
      assert order[i] == front[i];
    }
    assert order[|front|] == last;
  }

  lemma LastIsNew<A, T>(order: seq<Entry<A, T>>, clock: nat)
    requires Ordered(order, clock) && order != []
    ensures Ordered(order[..|order| - 1], clock) && order[|order| - 1].value !in Members(order[..|order| - 1])
  {
    var last := |order| - 1;
    forall i | 0 <= i < last ensures order[i].value != order[last].value {
      assert Precedes(order[i], order[last]);
    }
  }

  /** Counting nodes counts members. */
  lemma {:induction false} CountIsCardinality<A, T>(order: seq<Entry<A, T>>, clock: nat)
    requires Ordered(order, clock)
    ensures |Members(order)| == |order|
    decreases |order|
  {
    hide Members, Ordered;
    if order != [] {
      var front, last := order[..|order| - 1], order[|order| - 1];
      LastIsNew(order, clock);
      CountIsCardinality(front, clock);
      MembersSnoc(front, last);
      assert order == front + [last];
    } else {
      NoMembers<A, T>();
    }
  }

  lemma NoMembers<A, T>()
    ensures Members<A, T>([]) == {}
  {
  }

  // ---------------------------------------------------------------- the cursor

  ghost function At<A, T>(order: seq<Entry<A, T>>, k: int): Option<A> {
    if 0 <= k < |order| then Some(order[k].node) else None
  }

  /** MoveNext */
  ghost function Forward<A, T>(order: seq<Entry<A, T>>, c: Cursor<A>): Cursor<A> {
    if c.rst then Cursor(false, At(order, 0))
    else if c.current.None? then c
    else Cursor(false, At(order, Place(order, c.current.value) + 1))
  }

  /** operator-- */
  ghost function Backward<A, T>(order: seq<Entry<A, T>>, c: Cursor<A>): Cursor<A> {
    if c.rst then Cursor(false, At(order, |order| - 1))
    else if c.current.None? then c
    else if Live(order, c.current.value) then Cursor(false, At(order, Place(order, c.current.value) - 1))
    else Cursor(false, None)
  }

  /** GetCurrent drops an entry that is no longer in the set. */
  ghost function Looked<A, T>(order: seq<Entry<A, T>>, c: Cursor<A>): Cursor<A> {
    if c.current.Some? && !Live(order, c.current.value) then Cursor(c.rst, None) else c
  }

  // ---------------------------------------------------------------- runs

  datatype Op<A, T> =
    | Insert(value: T, block: Option<A>) | Remove(value: T) | Clear
    | MoveNext | MoveBack | GetCurrent | Reset

  /** visited: the entries the cursor has moved to since the last reset, without those that it has
      stepped back over. */
  datatype State<A, T> = State(order: seq<Entry<A, T>>, clock: nat, cursor: Cursor<A>, visited: seq<Entry<A, T>>)

  ghost function Step<A, T>(s: State<A, T>, op: Op<A, T>): State<A, T> {
    match op
    case Insert(value, block) => s.(order := Inserted(s.order, s.clock, value, block), clock := s.clock + 1)
    case Remove(value) => s.(order := Removed(s.order, value))
    case Clear => s.(order := [])
    case GetCurrent => s.(cursor := Looked(s.order, s.cursor))
    case Reset => s.(cursor := Cursor(true, None), visited := [])
    case MoveNext =>
      var c := Forward(s.order, s.cursor);
      if c.current.Some? && Live(s.order, c.current.value)
      then s.(cursor := c, visited := s.visited + [s.order[Place(s.order, c.current.value)]])
      else s.(cursor := c)
    case MoveBack =>
      var c := Backward(s.order, s.cursor);
      if c.current.Some? && Live(s.order, c.current.value) then
        var e := s.order[Place(s.order, c.current.value)];
        s.(cursor := c, visited := Before(s.visited, e.stamp) + [e])
      else s.(cursor := c)
  }

  /** The trail up to the entries that were inserted at a time or later. */
  ghost function Before<A, T>(visited: seq<Entry<A, T>>, stamp: nat): (r: seq<Entry<A, T>>)
    ensures r <= visited && (r != [] ==> r[|r| - 1].stamp < stamp)
    ensures |r| < |visited| ==> visited[|r|].stamp >= stamp
  {
    if visited == [] || visited[|visited| - 1].stamp < stamp then visited
    else Before(visited[..|visited| - 1], stamp)
  }

  ghost function Run<A, T>(s: State<A, T>, ops: seq<Op<A, T>>): State<A, T>
    decreases |ops|
  {
    if ops == [] then s else Run(Step(s, ops[0]), ops[1..])
  }

  /** The allocator never hands out memory that is in use. */
  ghost predicate Allocates<A, T>(s: State<A, T>, op: Op<A, T>) {
    op.Insert? && op.block.Some? ==> !Live(s.order, op.block.value)
  }

  /** The step does not take the entry away on which the cursor stands, nor make the cursor start
      from the last entry. */
  ghost predicate Spares<A, T>(s: State<A, T>, op: Op<A, T>) {
    && (s.cursor.current.Some? && Live(s.order, s.cursor.current.value) ==>
          Live(Step(s, op).order, s.cursor.current.value))
    && !(op.MoveBack? && s.cursor.rst)
  }

  ghost predicate Allocated<A, T>(s: State<A, T>, ops: seq<Op<A, T>>)
    decreases |ops|
  {
    ops == [] || (Allocates(s, ops[0]) && Allocated(Step(s, ops[0]), ops[1..]))
  }

  ghost predicate Spared<A, T>(s: State<A, T>, ops: seq<Op<A, T>>)
    decreases |ops|
  {
    ops == [] || (Spares(s, ops[0]) && Spared(Step(s, ops[0]), ops[1..]))
  }

  ghost predicate Standing<A, T>(s: State<A, T>) {
    s.cursor.current.Some? && Live(s.order, s.cursor.current.value)
  }

  ghost function Here<A, T>(s: State<A, T>): nat
    requires Standing(s)
  {
    Place(s.order, s.cursor.current.value)
  }

  /** A cursor about to start. */
  ghost predicate Starting<A, T>(s: State<A, T>) {
    Ordered(s.order, s.clock) && s.cursor == Cursor(true, None) && s.visited == []
  }

  /** Nothing visited lies behind the cursor. */
  ghost predicate Sound<A, T>(s: State<A, T>) {
    && Ordered(s.order, s.clock)
    && Ascending(s.visited)
    && (forall i :: 0 <= i < |s.visited| ==> s.visited[i].stamp < s.clock)
    && (s.cursor.rst ==> s.visited == [] && s.cursor.current == None)
    && (Standing(s) ==> forall i :: 0 <= i < |s.visited| ==> s.visited[i].stamp <= s.order[Here(s)].stamp)
  }

  lemma StepSound<A, T>(s: State<A, T>, op: Op<A, T>)
    requires Sound(s) && Allocates(s, op)
    ensures Sound(Step(s, op))
  {
    match op
    case Insert(value, block) => InsertSound(s, value, block);
    case Remove(value) => RemoveSound(s, value);
    case MoveNext => MoveSound(s);
    case MoveBack => BackSound(s);
    case _ =>
  }

  lemma InsertSound<A, T>(s: State<A, T>, value: T, block: Option<A>)
    requires Sound(s) && (block.Some? ==> !Live(s.order, block.value))
    ensures Sound(Step(s, Insert(value, block)))
    ensures Standing(s) ==> Standing(Step(s, Insert(value, block))) && Here(Step(s, Insert(value, block))) == Here(s)
  {
    hide Place, Position;
    var t := Step(s, Insert(value, block));
    InsertedOrdered(s.order, s.clock, value, block);
    if Standing(s) {
      assert t.order[Here(s)] == s.order[Here(s)];
      PlaceAt(t.order, t.clock, Here(s));
    }
  }

  lemma RemoveSound<A, T>(s: State<A, T>, value: T)
    requires Sound(s)
    ensures Sound(Step(s, Remove(value)))
    ensures Standing(s) && Position(s.order, value) != Here(s) ==>
              var t, k := Step(s, Remove(value)), Position(s.order, value);
              Standing(t) && Here(t) == if k < Here(s) then Here(s) - 1 else Here(s)
    ensures Standing(s) && Position(s.order, value) == Here(s) ==> !Standing(Step(s, Remove(value)))
  {
    hide Place, Position, RemoveAt, Precedes;
    var t, k := Step(s, Remove(value)), Position(s.order, value);
    RemovedOrdered(s.order, s.clock, value);
    if Standing(s) && k != Here(s) {
      PlaceAt(t.order, t.clock, if k < Here(s) then Here(s) - 1 else Here(s));
    } else if Standing(s) && Standing(t) {
      PlaceAt(s.order, s.clock, Here(t) + 1);
      assert false;
    } else if Standing(t) {
      assert false;
    }
  }

  lemma MoveSound<A, T>(s: State<A, T>)
    requires Sound(s)
    ensures Sound(Step(s, MoveNext))
    ensures var t := Step(s, MoveNext);
            t.cursor.current.Some? ==>
              Standing(t) && t.visited == s.visited + [t.order[Here(t)]]
              && (s.cursor.rst || (Standing(s) && Here(t) == Here(s) + 1)) && (s.cursor.rst ==> Here(t) == 0)
  {
    hide Place, Position;
    var t := Step(s, MoveNext);
    var k := if s.cursor.rst then -1
             else if s.cursor.current.Some? then Place(s.order, s.cursor.current.value) else |s.order|;
    if k + 1 < |s.order| {
      PlaceAt(s.order, s.clock, k + 1);
      assert k >= 0 ==> Precedes(s.order[k], s.order[k + 1]);
    }
  }

  lemma BackSound<A, T>(s: State<A, T>)
    requires Sound(s)
    ensures Sound(Step(s, MoveBack))
    ensures var t := Step(s, MoveBack);
            t.cursor.current.Some? ==>
              && Standing(t) && t.visited == Before(s.visited, t.order[Here(t)].stamp) + [t.order[Here(t)]]
              && (if s.cursor.rst then Here(t) + 1 == |t.order| else Standing(s) && Here(t) + 1 == Here(s))
  {
    hide Step, Place, Before, Ascending, Ordered;
    BackLands(s);
    var t := Step(s, MoveBack);
    if t.cursor.current.Some? {
      TrailAscends(s.visited, t.order[Here(t)]);
      StampBelowClock(t.order, t.clock, Here(t));
    }
  }

  lemma StampBelowClock<A, T>(order: seq<Entry<A, T>>, clock: nat, k: nat)
    requires Ordered(order, clock) && k < |order|
    ensures order[k].stamp < clock
  {
  }

  lemma BackLands<A, T>(s: State<A, T>)
    requires Ordered(s.order, s.clock)
    ensures var t := Step(s, MoveBack);
            && t.order == s.order && t.clock == s.clock && !t.cursor.rst
            && (if t.cursor.current.Some? then
                  && Standing(t) && t.visited == Before(s.visited, t.order[Here(t)].stamp) + [t.order[Here(t)]]
                  && (if s.cursor.rst then Here(t) + 1 == |t.order| else Standing(s) && Here(t) + 1 == Here(s))
                else t.visited == s.visited)
  {
    hide Place, Position, Before;
    var k := if s.cursor.rst then |s.order|
             else if s.cursor.current.Some? then Place(s.order, s.cursor.current.value) else 0;
    if 1 <= k <= |s.order| {
      PlaceAt(s.order, s.clock, k - 1);
    }
  }

  lemma TrailAscends<A, T>(visited: seq<Entry<A, T>>, e: Entry<A, T>)
    requires Ascending(visited)
    ensures var r := Before(visited, e.stamp) + [e];
            && Ascending(r) && (forall i :: 0 <= i < |r| ==> r[i].stamp <= e.stamp)
            && e in r && forall x :: x in visited && x.stamp < e.stamp ==> x in r
  {
    hide Before;
    var r := Before(visited, e.stamp);
    forall x | x in visited && x.stamp < e.stamp ensures x in r {
      var i :| 0 <= i < |visited| && visited[i] == x;
      assert i < |r|;
      assert r[i] == x;
    }
  }

  lemma {:induction false} RunSound<A, T>(s: State<A, T>, ops: seq<Op<A, T>>)
    requires Sound(s) && Allocated(s, ops)
    ensures Sound(Run(s, ops))
    decreases |ops|
  {
    if ops != [] {
      StepSound(s, ops[0]);
      RunSound(Step(s, ops[0]), ops[1..]);
    }
  }

  /** In every run, whatever is inserted and removed meanwhile, also under the cursor: no
      entry is visited twice, entries are visited in the order of insertion, and the entries
      of the set stay in that order, no address and no value occurring twice. */
  lemma VisitsInInsertionOrder<A, T>(s: State<A, T>, ops: seq<Op<A, T>>)
    requires Starting(s) && Allocated(s, ops)
    ensures Ascending(Run(s, ops).visited) && Ordered(Run(s, ops).order, Run(s, ops).clock)
  {
    hide Run, Allocated;
    RunSound(s, ops);
  }

  /** While nothing takes its entry away, the cursor has visited every entry up to where it
      stands. */
  ghost predicate Covering<A, T>(s: State<A, T>) {
    && Sound(s)
    && (s.cursor.current.Some? ==> Standing(s) && forall i :: 0 <= i <= Here(s) ==> s.order[i] in s.visited)
  }

  lemma StepCovers<A, T>(s: State<A, T>, op: Op<A, T>)
    requires Covering(s) && Allocates(s, op) && Spares(s, op)
    ensures Covering(Step(s, op))
  {
    hide Place, Position, RemoveAt;
    StepSound(s, op);
    match op
    case Insert(value, block) => InsertSound(s, value, block);
    case Remove(value) => RemoveSound(s, value);
    case MoveNext => MoveSound(s);
    case MoveBack => BackCovers(s);
    case _ =>
  }

  lemma BackCovers<A, T>(s: State<A, T>)
    requires Covering(s) && !s.cursor.rst
    ensures Covering(Step(s, MoveBack))
  {
    hide Place, Position, Before, Sound, Ascending, Precedes;
    BackSound(s);
    var t := Step(s, MoveBack);
    SoundParts(s);
    if t.cursor.current.Some? {
      TrailAscends(s.visited, t.order[Here(t)]);
      forall i | 0 <= i < Here(t) ensures t.order[i] in t.visited {
        assert Precedes(t.order[i], t.order[Here(t)]);
        InsertedEarlier(t.order[i], t.order[Here(t)]);
      }
    }
  }

  lemma InsertedEarlier<A, T>(a: Entry<A, T>, b: Entry<A, T>)
    requires Precedes(a, b)
    ensures a.stamp < b.stamp
  {
  }

  lemma SoundParts<A, T>(s: State<A, T>)
    requires Sound(s)
    ensures Ascending(s.visited) && forall i, j :: 0 <= i < j < |s.order| ==> Precedes(s.order[i], s.order[j])
  {
  }

  lemma {:induction false} RunCovers<A, T>(s: State<A, T>, ops: seq<Op<A, T>>)
    requires Covering(s) && Allocated(s, ops) && Spared(s, ops)
    ensures Covering(Run(s, ops))
    decreases |ops|
  {
    if ops != [] {
      StepCovers(s, ops[0]);
      RunCovers(Step(s, ops[0]), ops[1..]);
    }
  }

  /** The visited entries that are in the set. */
  ghost function Present<A, T>(visited: seq<Entry<A, T>>, order: seq<Entry<A, T>>): (r: seq<Entry<A, T>>)
    ensures forall i :: 0 <= i < |r| ==> r[i] in visited && r[i] in order
    ensures forall i :: 0 <= i < |visited| && visited[i] in order ==> visited[i] in r
    ensures Ascending(visited) ==> Ascending(r)
  {
    if visited == [] then []
    else if visited[0] in order then [visited[0]] + Present(visited[1..], order)
    else Present(visited[1..], order)
  }

  lemma {:induction false} SameEntries<A, T>(a: seq<Entry<A, T>>, b: seq<Entry<A, T>>)
    requires Ascending(a) && Ascending(b)
    requires forall e :: e in a <==> e in b
    ensures a == b
    decreases |a|
  {
    assert a != [] ==> a[0] in b;
    assert b != [] ==> b[0] in a;
    if a != [] {
      assert a[0] == b[0];
      forall e ensures e in a[1..] <==> e in b[1..] {
        assert e in a[1..] ==> e in b && e != b[0];
        assert e in b[1..] ==> e in a && e != a[0];
      }
      SameEntries(a[1..], b[1..]);
      assert a == [a[0]] + a[1..] && b == [b[0]] + b[1..];
    }
  }

  /** The cursor guarantee: when MoveNext first returns false and nothing has taken away the
      entry under the cursor, the visited entries still in the set are exactly the set, each
      once, in the order of insertion; also entries inserted meanwhile are among them. */
  lemma EverythingPresentVisitedOnce<A, T>(s: State<A, T>, ops: seq<Op<A, T>>)
    requires Starting(s) && Allocated(s, ops) && Spared(s, ops)
    requires var e := Run(s, ops).cursor; e.rst || e.current.Some?
    ensures var t := Step(Run(s, ops), MoveNext);
            t.cursor.current.None? ==> Ascending(t.visited) && Present(t.visited, t.order) == t.order
  {
    hide Place, Position, Run, Allocated, Spared, Present;
    RunCovers(s, ops);
    var e := Run(s, ops);
    var t := Step(e, MoveNext);
    MoveSound(e);
    if t.cursor.current.None? {
      assert forall i :: 0 <= i < |t.order| ==> t.order[i] in t.visited;
      SameEntries(Present(t.visited, t.order), t.order);
    }
  }

  // ---------------------------------------------------------------- the entry under the cursor is removed

  /** The cursor stands on an entry that has been removed, or nowhere. */
  ghost predicate Stranded<A, T>(s: State<A, T>) {
    !s.cursor.rst && !Standing(s)
  }

  /** The step puts a new entry into the memory at an address. */
  ghost predicate Occupies<A, T>(s: State<A, T>, op: Op<A, T>, node: A) {
    op.Insert? && op.block == Some(node) && !Contains(s.order, op.value)
  }

  /** The step puts a new entry where the cursor points. */
  ghost predicate Revives<A, T>(s: State<A, T>, op: Op<A, T>) {
    s.cursor.current.Some? && Occupies(s, op, s.cursor.current.value)
  }

  ghost predicate Resetless<A, T>(ops: seq<Op<A, T>>) {
    forall k :: 0 <= k < |ops| ==> !ops[k].Reset?
  }

  lemma StrandedStep<A, T>(s: State<A, T>, op: Op<A, T>)
    requires Sound(s) && Allocates(s, op) && Stranded(s) && !op.Reset?
    ensures !Step(s, op).cursor.rst && Step(s, op).visited == s.visited
    ensures Standing(Step(s, op)) <==> Revives(s, op)
    ensures op.MoveNext? || op.MoveBack? || op.GetCurrent? ==> Step(s, op).cursor.current.None?
  {
    hide Place, Position, RemoveAt, Before;
    match op
    case Insert(value, block) =>
      InsertedOrdered(s.order, s.clock, value, block);
      if Revives(s, op) {
        PlaceAt(Step(s, op).order, s.clock + 1, |s.order|);
      }
    case Remove(value) => RemoveSound(s, value);
    case MoveNext => MoveSound(s);
    case MoveBack => BackSound(s);
    case _ =>
  }

  /** After j steps GetCurrent returns a value. */
  ghost predicate ReadsSome<A, T>(s: State<A, T>, ops: seq<Op<A, T>>, j: nat)
    requires j <= |ops|
  {
    Step(Run(s, ops[..j]), GetCurrent).cursor.current.Some?
  }

  /** Step j puts a new entry where the cursor points. */
  ghost predicate RevivedAt<A, T>(s: State<A, T>, ops: seq<Op<A, T>>, j: nat)
    requires j < |ops|
  {
    Revives(Run(s, ops[..j]), ops[j])
  }

  lemma PrefixOfRun<A, T>(s: State<A, T>, ops: seq<Op<A, T>>, j: nat)
    requires j < |ops|
    ensures Run(s, ops[..j + 1]) == Run(Step(s, ops[0]), ops[1..][..j])
    ensures Run(s, ops[..0]) == s
  {
    assert ops[..j + 1][1..] == ops[1..][..j];
  }

  /** Once the entry under the cursor is removed, GetCurrent returns a value again at some
      point of a run exactly when some step of the run inserts a value that is not there
      into the memory at the cursor's address. */
  lemma {:induction false} RevivedExactlyByReuse<A, T>(s: State<A, T>, ops: seq<Op<A, T>>)
    requires Sound(s) && Allocated(s, ops) && Stranded(s) && Resetless(ops)
    ensures (exists j :: 0 <= j <= |ops| && ReadsSome(s, ops, j))
            <==> (exists j :: 0 <= j < |ops| && RevivedAt(s, ops, j))
    decreases |ops|
  {
    hide Step, Place, Position, Sound, Allocates;
    StrandedReadsNothing(s);
    if ops != [] {
      var t, rest := Step(s, ops[0]), ops[1..];
      PrefixOfRun(s, ops, 0);
      StepSound(s, ops[0]);
      StrandedStep(s, ops[0]);
      if Revives(s, ops[0]) {
        assert RevivedAt(s, ops, 0);
        StandingReadsSome(t);
        assert ReadsSome(s, ops, 1);
      } else {
        RevivedExactlyByReuse(t, rest);
        forall j | 0 <= j <= |rest| ensures ReadsSome(s, ops, j + 1) == ReadsSome(t, rest, j) {
          PrefixOfRun(s, ops, j);
        }
        forall j | 0 <= j < |rest| ensures RevivedAt(s, ops, j + 1) == RevivedAt(t, rest, j) {
          PrefixOfRun(s, ops, j);
        }
        ShiftedWitness(s, ops);
      }
    } else {
      assert ops[..0] == [];
    }
  }

  lemma StrandedReadsNothing<A, T>(s: State<A, T>)
    requires Stranded(s)
    ensures Step(s, GetCurrent).cursor.current.None?
  {
    hide Place;
  }

  lemma StandingReadsSome<A, T>(s: State<A, T>)
    requires Standing(s)
    ensures Step(s, GetCurrent).cursor.current.Some?
  {
    hide Place;
  }

  /** What holds at no start holds somewhere exactly when it holds somewhere in the rest. */
  lemma ShiftedWitness<A, T>(s: State<A, T>, ops: seq<Op<A, T>>)
    requires ops != [] && Run(s, ops[..0]) == s && Stranded(s) && !Revives(s, ops[0])
    requires var t, rest := Step(s, ops[0]), ops[1..];
             && (forall j :: 0 <= j <= |rest| ==> ReadsSome(s, ops, j + 1) == ReadsSome(t, rest, j))
             && (forall j :: 0 <= j < |rest| ==> RevivedAt(s, ops, j + 1) == RevivedAt(t, rest, j))
    ensures var t, rest := Step(s, ops[0]), ops[1..];
            && ((exists j :: 0 <= j <= |ops| && ReadsSome(s, ops, j))
                <==> (exists j :: 0 <= j <= |rest| && ReadsSome(t, rest, j)))
            && ((exists j :: 0 <= j < |ops| && RevivedAt(s, ops, j))
                <==> (exists j :: 0 <= j < |rest| && RevivedAt(t, rest, j)))
  {
    hide Step, Place, Position;
    StrandedReadsNothing(s);
    var t, rest := Step(s, ops[0]), ops[1..];
    if j :| 0 <= j <= |ops| && ReadsSome(s, ops, j) {
      assert ReadsSome(t, rest, j - 1);
    }
    if j :| 0 <= j < |ops| && RevivedAt(s, ops, j) {
      assert RevivedAt(t, rest, j - 1);
    }
    if j :| 0 <= j <= |rest| && ReadsSome(t, rest, j) {
      assert ReadsSome(s, ops, j + 1);
    }
    if j :| 0 <= j < |rest| && RevivedAt(t, rest, j) {
      assert RevivedAt(s, ops, j + 1);
    }
  }

  /** And until then MoveNext and operator-- lead nowhere and visit nothing. */
  lemma {:induction false} RemovedEntryEndsIteration<A, T>(s: State<A, T>, ops: seq<Op<A, T>>)
    requires Sound(s) && Allocated(s, ops) && Stranded(s) && Resetless(ops)
    requires forall j :: 0 <= j < |ops| ==> !RevivedAt(s, ops, j)
    ensures var t := Run(s, ops);
            && t.visited == s.visited && Step(t, MoveNext).cursor.current.None?
            && Step(t, MoveBack).cursor.current.None? && Step(t, GetCurrent).cursor.current.None?
    decreases |ops|
  {
    hide Step, Place, Position, Sound, Allocates;
    StrandedMovesNowhere(s);
    if ops != [] {
      StepSound(s, ops[0]);
      StrandedStep(s, ops[0]);
      PrefixOfRun(s, ops, 0);
      assert !RevivedAt(s, ops, 0);
      forall j | 0 <= j < |ops| - 1 ensures !RevivedAt(Step(s, ops[0]), ops[1..], j) {
        PrefixOfRun(s, ops, j);
        assert !RevivedAt(s, ops, j + 1);
      }
      RemovedEntryEndsIteration(Step(s, ops[0]), ops[1..]);
    }
  }

  lemma StrandedMovesNowhere<A, T>(s: State<A, T>)
    requires Sound(s) && Stranded(s)
    ensures Step(s, MoveNext).cursor.current.None? && Step(s, MoveBack).cursor.current.None?
    ensures Step(s, GetCurrent).cursor.current.None?
  {
    StrandedStep(s, MoveNext);
    StrandedStep(s, MoveBack);
    StrandedStep(s, GetCurrent);
  }

  /** The steps of others: they change the set and leave the cursor where it is. */
  ghost predicate Foreign<A, T>(op: Op<A, T>) {
    op.Insert? || op.Remove? || op.Clear?
  }

  ghost predicate AllForeign<A, T>(ops: seq<Op<A, T>>) {
    forall k :: 0 <= k < |ops| ==> Foreign(ops[k])
  }

  /** The step takes a value out of the set. */
  ghost predicate Undoes<A, T>(op: Op<A, T>, value: T) {
    op.Clear? || (op.Remove? && op.value == value)
  }

  ghost predicate Kept<A, T>(ops: seq<Op<A, T>>, k: nat, value: T) {
    forall i :: k <= i < |ops| ==> !Undoes(ops[i], value)
  }

  /** Step j puts an entry at the address, and no later step takes its value out. */
  ghost predicate OccupiedSince<A, T>(s: State<A, T>, ops: seq<Op<A, T>>, j: nat, node: A)
    requires j < |ops|
  {
    Occupies(Run(s, ops[..j]), ops[j], node) && Kept(ops, j + 1, ops[j].value)
  }

  /** The entry at an address. */
  ghost function EntryAt<A, T>(s: State<A, T>, node: A): Entry<A, T>
    requires Live(s.order, node)
  {
    s.order[Place(s.order, node)]
  }

  /** An address is in use after a step when its entry is spared or the step occupies it. */
  lemma EntryAfterStep<A, T>(s: State<A, T>, op: Op<A, T>, node: A)
    requires Sound(s) && Allocates(s, op) && Foreign(op)
    ensures var t := Step(s, op);
            && t.cursor == s.cursor && t.clock >= s.clock
            && (Live(t.order, node)
                <==> Occupies(s, op, node) || (Live(s.order, node) && !Undoes(op, EntryAt(s, node).value)))
            && (Occupies(s, op, node) ==> Live(t.order, node) && EntryAt(t, node) == Entry(node, op.value, s.clock))
            && (Live(s.order, node) && Live(t.order, node) ==> EntryAt(t, node) == EntryAt(s, node))
  {
    hide Place, Position, Precedes;
    StepSound(s, op);
    var t := Step(s, op);
    var k := Place(s.order, node);
    match op
    case Insert(value, block) =>
      if Occupies(s, op, node) {
        PlaceAt(t.order, t.clock, |s.order|);
      } else if k < |s.order| {
        assert t.order[k] == s.order[k];
        PlaceAt(t.order, t.clock, k);
      }
    case Remove(value) => EntryAfterRemove(s, value, node);
    case _ =>
  }

  lemma EntryAfterRemove<A, T>(s: State<A, T>, value: T, node: A)
    requires Sound(s)
    ensures var t := Step(s, Remove(value));
            && (Live(t.order, node) <==> Live(s.order, node) && EntryAt(s, node).value != value)
            && (Live(t.order, node) ==> EntryAt(t, node) == EntryAt(s, node))
  {
    hide Place, Position, Precedes;
    var t := Step(s, Remove(value));
    RemoveSound(s, value);
    var k, p := Place(s.order, node), Position(s.order, value);
    if k < |s.order| && k != p {
      var j := if p < k then k - 1 else k;
      assert t.order[j] == s.order[k];
      PlaceAt(t.order, t.clock, j);
      PlaceAt(s.order, s.clock, k);
    } else if Live(t.order, node) {
      var i := Place(t.order, node);
      var j := if i < p then i else i + 1;
      assert p < |s.order| ==> t.order[i] == s.order[j];
      if p < |s.order| {
        PlaceAt(s.order, s.clock, j);
      }
      assert false;
    }
  }

  lemma ShiftedOccupation<A, T>(s: State<A, T>, ops: seq<Op<A, T>>, node: A)
    requires ops != []
    ensures var t, rest := Step(s, ops[0]), ops[1..];
            && (forall j :: 0 <= j < |rest| ==> OccupiedSince(s, ops, j + 1, node) == OccupiedSince(t, rest, j, node))
            && OccupiedSince(s, ops, 0, node) == (Occupies(s, ops[0], node) && Kept(rest, 0, ops[0].value))
  {
    hide Step, Contains;
    var t, rest := Step(s, ops[0]), ops[1..];
    PrefixOfRun(s, ops, 0);
    forall j | 0 <= j < |rest| ensures OccupiedSince(s, ops, j + 1, node) == OccupiedSince(t, rest, j, node) {
      PrefixOfRun(s, ops, j);
      if Occupies(Run(t, rest[..j]), rest[j], node) {
        KeptShift(ops, j + 2, ops[j + 1].value);
      }
    }
    if Occupies(s, ops[0], node) {
      KeptShift(ops, 1, ops[0].value);
    }
  }

  lemma KeptShift<A, T>(ops: seq<Op<A, T>>, k: nat, value: T)
    requires ops != [] && k > 0
    ensures Kept(ops, k, value) == Kept(ops[1..], k - 1, value)
  {
    hide Undoes;
    if Kept(ops[1..], k - 1, value) {
      forall i | k <= i < |ops| ensures !Undoes(ops[i], value) {
        assert ops[1..][i - 1] == ops[i];
      }
    }
  }

  /** An address is in use after a run exactly when its entry was there and its value was
      never taken out, or some step occupied it and that step's value was not taken out
      since. What is found there is the old entry or one inserted in the run. */
  lemma {:induction false} LiveAfterRun<A, T>(s: State<A, T>, ops: seq<Op<A, T>>, node: A)
    requires Sound(s) && Allocated(s, ops) && AllForeign(ops)
    ensures var t := Run(s, ops);
            && t.cursor == s.cursor && t.clock >= s.clock
            && (Live(t.order, node) <==>
                  (Live(s.order, node) && Kept(ops, 0, EntryAt(s, node).value))
                  || exists j :: 0 <= j < |ops| && OccupiedSince(s, ops, j, node))
            && (Live(t.order, node) ==>
                  EntryAt(t, node).stamp >= s.clock || (Live(s.order, node) && EntryAt(t, node) == EntryAt(s, node)))
    decreases |ops|
  {
    hide Step, Sound, Allocates, Live, Occupies, Undoes, Kept, OccupiedSince;
    if ops != [] {
      var t, rest := Step(s, ops[0]), ops[1..];
      assert Foreign(ops[0]);
      StepSound(s, ops[0]);
      EntryAfterStep(s, ops[0], node);
      LiveAfterRun(t, rest, node);
      ShiftedOccupation(s, ops, node);
      if Live(s.order, node) {
        KeptFirst(ops, EntryAt(s, node).value);
        LiveIsNotOccupied(s, ops[0], node);
      }
      if j :| 0 <= j < |rest| && OccupiedSince(t, rest, j, node) {
        assert OccupiedSince(s, ops, j + 1, node);
      }
      if j :| 0 <= j < |ops| && OccupiedSince(s, ops, j, node) {
        if j > 0 {
          assert OccupiedSince(t, rest, j - 1, node);
        }
      }
    } else {
      NothingUndone<A, T>(ops, if Live(s.order, node) then Some(EntryAt(s, node).value) else None);
    }
  }

  lemma NothingUndone<A, T>(ops: seq<Op<A, T>>, value: Option<T>)
    requires ops == []
    ensures value.Some? ==> Kept(ops, 0, value.value)
  {
  }

  lemma KeptFirst<A, T>(ops: seq<Op<A, T>>, value: T)
    requires ops != []
    ensures Kept(ops, 0, value) <==> !Undoes(ops[0], value) && Kept(ops[1..], 0, value)
  {
    KeptShift(ops, 1, value);
    hide Undoes;
  }

  lemma LiveIsNotOccupied<A, T>(s: State<A, T>, op: Op<A, T>, node: A)
    requires Allocates(s, op) && Live(s.order, node)
    ensures !Occupies(s, op, node)
  {
  }

  /** After the entry under the cursor is removed and others have changed the set in any way:
      GetCurrent returns null unless some insertion has put a value that was not there into
      the memory at the cursor's address and that value was not taken out since; and then it
      returns a value inserted after the removal, to which the cursor has never moved.
      MoveNext returns false exactly then or behind the last entry. */
  lemma CursorAfterRemoval<A, T>(s: State<A, T>, ops: seq<Op<A, T>>, node: A)
    requires Sound(s) && Stranded(s) && s.cursor.current == Some(node)
    requires Allocated(s, ops) && AllForeign(ops)
    ensures var t := Run(s, ops);
            && (Step(t, GetCurrent).cursor.current.Some?
                <==> exists j :: 0 <= j < |ops| && OccupiedSince(s, ops, j, node))
            && (Step(t, GetCurrent).cursor.current.Some? ==>
                  && Live(t.order, node) && EntryAt(t, node).stamp >= s.clock && EntryAt(t, node) !in t.visited
                  && (Step(t, MoveNext).cursor.current.None? <==> Place(t.order, node) + 1 == |t.order|))
            && (Step(t, GetCurrent).cursor.current.None? ==> Step(t, MoveNext).cursor.current.None?)
  {
    hide Place, Run, Allocated, OccupiedSince;
    LiveAfterRun(s, ops, node);
    ForeignVisitsNothing(s, ops);
  }

  lemma {:induction false} ForeignVisitsNothing<A, T>(s: State<A, T>, ops: seq<Op<A, T>>)
    requires AllForeign(ops)
    ensures Run(s, ops).visited == s.visited
    decreases |ops|
  {
    if ops != [] {
      assert Foreign(ops[0]);
      ForeignVisitsNothing(Step(s, ops[0]), ops[1..]);
    }
  }

  /** After "a" is removed under the cursor, inserting "b" into the same memory makes the cursor
      stand on "b", to which it has never moved. */
  lemma ReuseMisleadsCursor()
    ensures var s: State<nat, string> := State([], 0, Cursor(true, None), []);
            var ops := [Insert("a", Some(0)), MoveNext, Remove("a"), Insert("b", Some(0)), GetCurrent];
            Starting(s) && Allocated(s, ops) &&
            var t := Run(s, ops);
            t.cursor.current == Some(0) && t.order == [Entry(0, "b", 1)] && t.visited == [Entry(0, "a", 0)]
  {
    hide Step, Live, Run, Allocated;
    var ops: seq<Op<nat, string>> := [Insert("a", Some(0)), MoveNext, Remove("a"), Insert("b", Some(0)), GetCurrent];
    var a: Entry<nat, string>, b: Entry<nat, string> := Entry(0, "a", 0), Entry(0, "b", 1);
    var start: Cursor<nat>, at: Cursor<nat> := Cursor(true, None), Cursor(false, Some(0));
    OnlyInserted(0, start, [], a);
    OnlyMovedTo(1, a);
    OnlyRemoved(1, at, [a], a);
    OnlyInserted(1, at, [a], b);
    OnlyLookedAt(2, [a], b);
    var s0, s1, s2 := State([], 0, start, []), State([a], 1, start, []), State([a], 1, at, [a]);
    var s3, s4 := State([], 1, at, [a]), State([b], 2, at, [a]);
    assert Step(s0, ops[0]) == s1;
    assert Step(s1, ops[1]) == s2;
    assert Step(s2, ops[2]) == s3;
    assert Step(s3, ops[3]) == s4;
    assert Step(s4, ops[4]) == s4;
    RunOfFive(s0, ops);
  }

  lemma OnlyInserted<A, T>(clock: nat, cursor: Cursor<A>, visited: seq<Entry<A, T>>, e: Entry<A, T>)
    requires e.stamp == clock
    ensures !Live<A, T>([], e.node)
    ensures Step(State([], clock, cursor, visited), Insert(e.value, Some(e.node))) ==
            State([e], clock + 1, cursor, visited)
  {
  }

  lemma OnlyMovedTo<A, T>(clock: nat, e: Entry<A, T>)
    ensures Step(State([e], clock, Cursor(true, None), []), MoveNext) ==
            State([e], clock, Cursor(false, Some(e.node)), [e])
  {
    assert Place([e], e.node) == 0;
  }

  lemma OnlyRemoved<A, T>(clock: nat, cursor: Cursor<A>, visited: seq<Entry<A, T>>, e: Entry<A, T>)
    ensures Step(State([e], clock, cursor, visited), Remove(e.value)) == State([], clock, cursor, visited)
  {
    assert Position([e], e.value) == 0;
  }

  lemma OnlyLookedAt<A, T>(clock: nat, visited: seq<Entry<A, T>>, e: Entry<A, T>)
    ensures var s := State([e], clock, Cursor(false, Some(e.node)), visited); Step(s, GetCurrent) == s
  {
    assert Place([e], e.node) == 0;
  }

  lemma RunOfFive<A, T>(s: State<A, T>, ops: seq<Op<A, T>>)
    requires |ops| == 5
    ensures Run(s, ops) == Step(Step(Step(Step(Step(s, ops[0]), ops[1]), ops[2]), ops[3]), ops[4])
    ensures Allocated(s, ops) <==>
              var s1 := Step(s, ops[0]);
              var s2 := Step(s1, ops[1]);
              var s3 := Step(s2, ops[2]);
              var s4 := Step(s3, ops[3]);
              && Allocates(s, ops[0]) && Allocates(s1, ops[1]) && Allocates(s2, ops[2]) && Allocates(s3, ops[3])
              && Allocates(s4, ops[4])
  {
    hide Step, Allocates;
    var s1 := Step(s, ops[0]);
    var s2 := Step(s1, ops[1]);
    var s3 := Step(s2, ops[2]);
    var s4 := Step(s3, ops[3]);
    var s5 := Step(s4, ops[4]);
    assert Run(s4, ops[4..]) == Run(s5, ops[4..][1..]) == s5;
    assert ops[3..][1..] == ops[4..] && ops[2..][1..] == ops[3..] && ops[1..][1..] == ops[2..];
    assert Run(s3, ops[3..]) == s5;
    assert Run(s2, ops[2..]) == s5;
    assert Allocated(s4, ops[4..]) <==> Allocates(s4, ops[4]);
    assert Allocated(s3, ops[3..]) <==> Allocates(s3, ops[3]) && Allocates(s4, ops[4]);
    assert Allocated(s2, ops[2..]) <==> Allocates(s2, ops[2]) && Allocated(s3, ops[3..]);
  }

  /** A step forward and a step back lead to the same entry. */
  lemma BackwardUndoesForward<A, T>(order: seq<Entry<A, T>>, clock: nat, c: Cursor<A>)
    requires Ordered(order, clock) && !c.rst && c.current.Some? && Live(order, c.current.value)
    requires Forward(order, c).current.Some?
    ensures Backward(order, Forward(order, c)) == c
  {
    hide Place, Position;
    PlaceAt(order, clock, Place(order, c.current.value) + 1);
  }

  ghost predicate AllMoves<A, T>(ops: seq<Op<A, T>>) {
    forall k :: 0 <= k < |ops| ==> ops[k].MoveNext? || ops[k].MoveBack?
  }

  /** Where moves lead from position k. */
  ghost function Net<A, T>(ops: seq<Op<A, T>>, k: int): int
    decreases |ops|
  {
    if ops == [] then k else Net(ops[1..], if ops[0].MoveNext? then k + 1 else k - 1)
  }

  /** None of the moves goes below position 0 or up to position n. */
  ghost predicate Within<A, T>(ops: seq<Op<A, T>>, k: int, n: nat)
    decreases |ops|
  {
    0 <= k < n && (ops == [] || Within(ops[1..], if ops[0].MoveNext? then k + 1 else k - 1, n))
  }

  /** Moving to and fro while the set stays the same: the cursor stands on an entry exactly as long
      as no move has led off either end, and then on the one that counting its moves gives. */
  lemma {:induction false} MovesCount<A, T>(s: State<A, T>, ops: seq<Op<A, T>>)
    requires Sound(s) && Standing(s) && AllMoves(ops)
    ensures var t := Run(s, ops);
            && t.order == s.order
            && (Standing(t) <==> Within(ops, Here(s), |s.order|))
            && (Standing(t) ==> Here(t) == Net(ops, Here(s)))
    decreases |ops|
  {
    hide Step, Sound, Place;
    if ops != [] {
      var t := Step(s, ops[0]);
      assert ops[0].MoveNext? || ops[0].MoveBack?;
      MoveOne(s, ops[0]);
      if Standing(t) {
        MovesCount(t, ops[1..]);
      } else {
        LostStaysLost(t, ops[1..]);
      }
    }
  }

  lemma MoveOne<A, T>(s: State<A, T>, op: Op<A, T>)
    requires Sound(s) && Standing(s) && (op.MoveNext? || op.MoveBack?)
    ensures var t, k := Step(s, op), if op.MoveNext? then Here(s) + 1 else Here(s) - 1;
            && t.order == s.order && Sound(t) && !t.cursor.rst
            && (if 0 <= k < |s.order| then Standing(t) && Here(t) == k else t.cursor.current.None?)
  {
    hide Place, Before;
    if op.MoveNext? {
      MoveSound(s);
    } else {
      BackSound(s);
    }
  }

  lemma {:induction false} LostStaysLost<A, T>(s: State<A, T>, ops: seq<Op<A, T>>)
    requires !s.cursor.rst && s.cursor.current.None? && AllMoves(ops)
    ensures Run(s, ops).order == s.order && !Standing(Run(s, ops))
    decreases |ops|
  {
    if ops != [] {
      assert ops[0].MoveNext? || ops[0].MoveBack?;
      LostStaysLost(Step(s, ops[0]), ops[1..]);
    }
  }
}

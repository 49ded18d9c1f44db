/** The page-chained hash map of json/src/json_internalmap.inl under insertion and lookup: a
    single bucket, whose pages hold six items each. Keys are C strings, without their
    terminator. */
module InternalMaps {
  import opened JsonValue
  import opened Sequences

  const ITEMS_PER_LINK := 6

  /** One of the six places of a page. */
  datatype Slot = Slot(available: bool, key: string, staticName: bool, value: Value)

  const FREE := Slot(true, "", false, Null)

  // ---------------------------------------------------------------- the map a chain of pages stands for

  /** The position of the entry for a key; |entries| when there is none. */
  ghost function Place(entries: seq<Slot>, key: string): (n: nat)
    ensures n <= |entries|
    ensures n < |entries| ==> entries[n].key == key
    ensures forall m :: 0 <= m < n ==> entries[m].key != key
  {
    IndexWhere(entries, (s: Slot) => s.key == key)
  }

  ghost predicate Entries(entries: seq<Slot>) {
    && (forall n :: 0 <= n < |entries| ==> !entries[n].available)
    && forall m, n :: 0 <= m < n < |entries| ==> entries[m].key != entries[n].key
  }

  /** The finite map of the entries. */
  ghost function Contents(entries: seq<Slot>): map<string, Value>
    decreases |entries|
  {
    if entries == [] then map[]
    else Contents(entries[..|entries| - 1])[entries[|entries| - 1].key := entries[|entries| - 1].value]
  }

  /** Looking up a place is looking up the map, for every key. */
  lemma {:induction false} PlaceIsLookup(entries: seq<Slot>, key: string)
    requires Entries(entries)
    ensures key in Contents(entries) <==> Place(entries, key) < |entries|
    ensures key in Contents(entries) ==> Contents(entries)[key] == entries[Place(entries, key)].value
    ensures |Contents(entries)| == |entries|
    decreases |entries|
  {
    hide Place;
    if entries != [] {
      var front, last := entries[..|entries| - 1], entries[|entries| - 1];
      PlaceIsLookup(front, key);
      PlaceIsLookup(front, last.key);
      var n, m := Place(entries, key), Place(front, key);
      assert n < |front| ==> front[n] == entries[n];
      assert m < |front| ==> front[m] == entries[m];
    }
  }

  function SlotAt(entries: seq<Slot>, n: nat): Slot {
    if n < |entries| then entries[n] else FREE
  }

  /** Page i holds its six entries, then free places. */
  ghost predicate Page(items: seq<Slot>, entries: seq<Slot>, i: nat) {
    |items| == ITEMS_PER_LINK
    && forall j :: 0 <= j < ITEMS_PER_LINK ==> items[j] == SlotAt(entries, ITEMS_PER_LINK * i + j)
  }

  /** A char as C++ sees it, signed. */
  function SignedByte(c: char): int {
    if c as int < 128 then c as int else c as int - 256
  }

  /** The byte's value in two's complement. */
  lemma SignedByteIs(c: char)
    requires c as int < 256
    ensures -128 <= SignedByte(c) < 128 && (SignedByte(c) == c as int || SignedByte(c) == c as int - 256)
  {
  }

  function SignedSum(key: string): int {
    if key == "" then 0 else SignedSum(key[..|key| - 1]) + SignedByte(key[|key| - 1])
  }

  const HASH_RANGE := 0x1_0000_0000

  /** The loop of hash, in 32 bits: 37 times the sum of the signed bytes, wrapped once. */
  method Hash(key: string) returns (hash: nat)
    ensures hash == SignedSum(key) * 37 % 0x1_0000_0000
  {
    hash := 0;
    for i := 0 to |key|
      invariant hash == SignedSum(key[..i]) * 37 % HASH_RANGE
    {
      assert key[..i + 1][..i] == key[..i];
      hash := (hash + SignedByte(key[i]) * 37) % HASH_RANGE;
    }
    assert key[..|key|] == key;
  }

  class Link {
    var items: seq<Slot>
    var next: Link?
    var previous: Link?

    constructor ()
      ensures items == seq(ITEMS_PER_LINK, _ => FREE) && next == null
    {
      items := seq(ITEMS_PER_LINK, _ => FREE);
      next, previous := null, null;
    }
  }

  class ValueInternalMap {
    var buckets: seq<Link>
    var tailLink: Link?
    var bucketsSize: nat
    var itemCount: nat
    /** The pages from the bucket to the tail. */
    ghost var links: seq<Link>
    /** The used places in the order of the pages. */
    ghost var entries: seq<Slot>

    ghost function Nth(i: nat): Link?
      reads this
    {
      if i < |links| then links[i] else null
    }

    ghost predicate Chained()
      reads this, links
    {
      && bucketsSize == |buckets| <= 1
      && (bucketsSize == 0 ==> links == [] && tailLink == null)
      && (bucketsSize == 1 ==> links != [] && links[0] == buckets[0] && tailLink == links[|links| - 1])
      && Distinct(links)
      && forall i :: 0 <= i < |links| ==> links[i].next == Nth(i + 1)
    }

    /** Every page but the last is full, used places come first, keys are distinct. */
    ghost predicate Filled()
      reads this, links
    {
      && itemCount == |entries|
      && Entries(entries)
      && ITEMS_PER_LINK * (|links| - 1) <= |entries| <= ITEMS_PER_LINK * |links|
      && forall i :: 0 <= i < |links| ==> Page(links[i].items, entries, i)
    }

    /** No page but the bucket itself is empty. */
    ghost predicate Valid()
      reads this, links
    {
      Chained() && Filled() && (|links| > 1 ==> |entries| > ITEMS_PER_LINK * (|links| - 1))
    }

    /** Only pages and entries have changed. */
    twostate lemma ChainStays()
      requires old(Chained())
      requires links == old(links) && buckets == old(buckets) && tailLink == old(tailLink)
      requires bucketsSize == old(bucketsSize)
      requires forall k :: 0 <= k < |links| ==> links[k].next == old(links[k].next)
      ensures Chained()
    {
    }

    lemma ChainDistinct()
      requires Chained()
      ensures Distinct(links)
    {
    }

    lemma ValidParts()
      requires Valid()
      ensures Chained() && Filled() && Entries(entries)
    {
    }

    constructor ()
      ensures Valid() && entries == []
    {
      buckets, tailLink, bucketsSize, itemCount := [], null, 0, 0;
      links, entries := [], [];
    }

    /** A page holds six items, and there are no more pages than needed, but for the bucket itself. */
    lemma PagesNeeded()
      requires Valid() && entries != []
      ensures |links| == (|entries| + 5) / 6
    {
    }

    method Size() returns (size: nat)
      requires Valid()
      ensures size == |entries| == |Contents(entries)|
    {
      PlaceIsLookup(entries, "");
      size := itemCount;
    }

    /** The first allocation makes the only bucket there will ever be. */
    method Reserve(newItemCount: nat) returns (ok: bool)
      requires Valid()
      modifies this
      ensures Valid() && ok && entries == old(entries)
      ensures newItemCount > 0 ==> bucketsSize == 1
      ensures forall k :: 0 <= k < |links| ==> links[k] in old(links) || fresh(links[k])
    {
      if buckets == [] && newItemCount > 0 {
        var bucket := new Link();
        buckets, bucketsSize, tailLink := [bucket], 1, bucket;
        links := [bucket];
      }
      return true;
    }

    /** The value bound to a key. */
    method Find(key: string) returns (found: bool, value: Value)
      requires Valid()
      ensures found == (key in Contents(entries))
      ensures found ==> value == Contents(entries)[key]
    {
      hide Place, Distinct, Contents;
      PlaceIsLookup(entries, key);
      if bucketsSize == 0 {
        return false, Null;
      }
      var hashedKey := Hash(key);
      var bucketIndex := hashedKey % bucketsSize;
      var current: Link? := buckets[bucketIndex];
      ghost var i := 0;
      while current != null
        invariant 0 <= i <= |links| && current == Nth(i)
        invariant forall n :: 0 <= n < ITEMS_PER_LINK * i && n < |entries| ==> entries[n].key != key
        decreases |links| - i
      {
        assert Page(links[i].items, entries, i);
        for index := 0 to ITEMS_PER_LINK
          invariant forall n :: 0 <= n < ITEMS_PER_LINK * i + index && n < |entries| ==> entries[n].key != key
        {
          if current.items[index].available {
            return false, Null;
          }
          if key == current.items[index].key {
            return true, current.items[index].value;
          }
        }
        current, i := current.next, i + 1;
      }
      return false, Null;
    }

    /** The tail page of a bucket; with one bucket this is tailLink. */
    method GetLastLinkInBucket(bucketIndex: nat) returns (last: Link)
      requires Valid() && bucketIndex < bucketsSize
      ensures last == links[|links| - 1] && last == tailLink
    {
      if bucketIndex == bucketsSize - 1 {
        return tailLink;
      }
      // there is no second bucket
      assert false;
    }

    /** Takes the first free place, page i's place index. */
    method SetNewItem(key: string, isStatic: bool, link: Link, index: nat, ghost i: nat)
      requires Chained() && Filled() && i < |links| && links[i] == link
      requires index < ITEMS_PER_LINK && ITEMS_PER_LINK * i + index == |entries|
      requires forall n :: 0 <= n < |entries| ==> entries[n].key != key
      modifies this`itemCount, this`entries, link`items
      ensures Valid() && entries == old(entries) + [Slot(false, key, isStatic, Null)]
    {
      hide Chained, Distinct, Page, Entries;
      ChainDistinct();
      OthersDiffer(links, i);
      ghost var was := entries;
      EntriesGrow(was, Slot(false, key, isStatic, Null));
      PageSet(link.items, was, i, index, Slot(false, key, isStatic, Null));
      itemCount := itemCount + 1;
      link.items := link.items[index := link.items[index].(key := key)];
      link.items := link.items[index := link.items[index].(available := false)];
      link.items := link.items[index := link.items[index].(staticName := isStatic)];
      assert link.items == old(link.items)[index := Slot(false, key, isStatic, Null)];
      entries := was + [Slot(false, key, isStatic, Null)];
      ChainStays();
      forall k | 0 <= k < |links| && k != i ensures Page(links[k].items, entries, k) {
        PageKept(links[k].items, was, k, Slot(false, key, isStatic, Null));
      }
    }

    /** Adds a missing key behind the last item, on a new page when the tail is full. */
    method UnsafeAdd(key: string, isStatic: bool, hashedKey: nat) returns (link: Link, index: nat)
      requires Valid() && bucketsSize > 0
      requires forall n :: 0 <= n < |entries| ==> entries[n].key != key
      modifies this, links
      ensures Valid() && entries == old(entries) + [Slot(false, key, isStatic, Null)]
      ensures forall k :: 0 <= k < |links| ==> links[k] in old(links) || fresh(links[k])
      ensures links != [] && link == links[|links| - 1] && index < ITEMS_PER_LINK
      ensures ITEMS_PER_LINK * (|links| - 1) + index == |entries| - 1
    {
      hide Distinct;
      var bucketIndex := hashedKey % bucketsSize;
      link := GetLastLinkInBucket(bucketIndex);
      ghost var i := |links| - 1;
      assert Page(link.items, entries, i);
      index := 0;
      while index < ITEMS_PER_LINK
        invariant index <= ITEMS_PER_LINK && ITEMS_PER_LINK * i + index <= |entries|
      {
        if link.items[index].available {
          break;
        }
        index := index + 1;
      }
      if index == ITEMS_PER_LINK {
        link := AddPage(link);
        index, i := 0, i + 1;
      }
      SetNewItem(key, isStatic, link, index, i);
    }

    /** Chains an empty page behind a full tail. */
    method AddPage(link: Link) returns (newLink: Link)
      requires Valid() && links != [] && link == links[|links| - 1] && |entries| == ITEMS_PER_LINK * |links|
      modifies this`tailLink, this`links, link`next
      ensures Chained() && Filled() && fresh(newLink) && links == old(links) + [newLink]
    {
      hide Distinct, Page, Entries;
      ghost var was := links;
      EmptyPage(entries, |links|);
      newLink := new Link();
      OthersDiffer(was, |was| - 1);
      InsertDistinct(was, |was|, newLink);
      link.next := newLink;
      tailLink := newLink;
      links := was + [newLink];
      assert InsertAt(was, |was|, newLink) == links;
    }

    /** The loops of ResolveReference: the first place that is free or holds the key, if any. */
    method Scan(key: string, bucketIndex: nat) returns (link: Link?, index: nat, ghost i: nat)
      requires Valid() && bucketIndex < bucketsSize
      ensures link == null ==> |entries| == ITEMS_PER_LINK * |links| && Place(entries, key) == |entries|
      ensures link != null ==>
                i < |links| && link == links[i] && index < ITEMS_PER_LINK
                && ITEMS_PER_LINK * i + index == Place(entries, key) && |link.items| == ITEMS_PER_LINK
                && (link.items[index].available <==> Place(entries, key) == |entries|)
    {
      hide Place, Distinct, Page;
      i := 0;
      link, index := buckets[bucketIndex], 0;
      while link != null
        invariant 0 <= i <= |links| && link == Nth(i) && ITEMS_PER_LINK * i <= |entries|
        invariant forall n :: 0 <= n < ITEMS_PER_LINK * i ==> entries[n].key != key
        decreases |links| - i
      {
        index := 0;
        while index < ITEMS_PER_LINK
          invariant index <= ITEMS_PER_LINK && ITEMS_PER_LINK * i + index <= |entries|
          invariant forall n :: 0 <= n < ITEMS_PER_LINK * i + index ==> entries[n].key != key
        {
          PageAt(link.items, entries, i, index);
          if link.items[index].available {
            return;
          }
          if key == link.items[index].key {
            return;
          }
          index := index + 1;
        }
        link, i := link.next, i + 1;
      }
    }

    /** The place of a key, which gets one, bound to null, when it has none. */
    method ResolveReference(key: string, isStatic: bool) returns (link: Link, index: nat, ghost i: nat)
      requires Valid()
      modifies this, links
      ensures Valid() && entries == Resolved(old(entries), key, isStatic)
      ensures forall k :: 0 <= k < |links| ==> links[k] in old(links) || fresh(links[k])
      ensures i < |links| && link == links[i] && index < ITEMS_PER_LINK
      ensures ITEMS_PER_LINK * i + index == Place(entries, key) < |entries|
    {
      hide Place, Chained, Filled, Entries, Resolved;
      ghost var was := entries;
      ValidParts();
      ResolvedPlace(was, key, isStatic);
      var hashedKey := Hash(key);
      if bucketsSize != 0 {
        var bucketIndex := hashedKey % bucketsSize;
        var current: Link?;
        current, index, i := Scan(key, bucketIndex);
        if current != null {
          if current.items[index].available {
            SetNewItem(key, isStatic, current, index, i);
          }
          return current, index, i;
        }
      }
      var ok := Reserve(itemCount + 1);
      link, index := UnsafeAdd(key, isStatic, hashedKey);
      i := |links| - 1;
    }

    /** Assignment through the reference that ResolveReference returns. */
    method Assign(key: string, isStatic: bool, value: Value)
      requires Valid()
      modifies this, links
      ensures Valid() && Contents(entries) == old(Contents(entries))[key := value]
    {
      hide Place, Distinct, Page, Contents, Resolved;
      ghost var was := entries;
      ResolvedContents(was, key, isStatic);
      var link, index, i := ResolveReference(key, isStatic);
      PageAt(link.items, entries, i, index);
      Store(link, index, value, i);
      StoredContents(Resolved(was, key, isStatic), key, value);
    }

    /** Replaces the value at a used place. */
    method Store(link: Link, index: nat, value: Value, ghost i: nat)
      requires Valid() && i < |links| && links[i] == link && index < ITEMS_PER_LINK
      requires ITEMS_PER_LINK * i + index < |entries| && |link.items| == ITEMS_PER_LINK
      modifies this`entries, link`items
      ensures Valid()
      ensures entries == Rebound(old(entries), ITEMS_PER_LINK * i + index, value)
    {
      hide Chained, Distinct, Page, Entries, Rebound;
      ChainDistinct();
      OthersDiffer(links, i);
      ghost var was := entries;
      ReboundEntries(was, ITEMS_PER_LINK * i + index, value);
      link.items := link.items[index := link.items[index].(value := value)];
      entries := Rebound(was, ITEMS_PER_LINK * i + index, value);
      ChainStays();
      forall k | 0 <= k < |links| ensures Page(links[k].items, entries, k) {
        assert old(Page(links[k].items, entries, k));
        PageRebound(old(links[k].items), was, k, i, index, value);
      }
    }
  }

  ghost function Rebound(entries: seq<Slot>, n: nat, value: Value): seq<Slot>
    requires n < |entries|
  {
    entries[n := entries[n].(value := value)]
  }

  lemma ReboundEntries(entries: seq<Slot>, n: nat, value: Value)
    requires Entries(entries) && n < |entries|
    ensures Entries(Rebound(entries, n, value)) && |Rebound(entries, n, value)| == |entries|
  {
  }

  lemma PageRebound(items: seq<Slot>, entries: seq<Slot>, k: nat, i: nat, j: nat, value: Value)
    requires Page(items, entries, k) && j < ITEMS_PER_LINK && ITEMS_PER_LINK * i + j < |entries|
    ensures |items| == ITEMS_PER_LINK
    ensures Page(if k == i then items[j := items[j].(value := value)] else items,
                 Rebound(entries, ITEMS_PER_LINK * i + j, value), k)
  {
  }

  lemma ResolvedPlace(entries: seq<Slot>, key: string, isStatic: bool)
    requires Entries(entries)
    ensures var r := Resolved(entries, key, isStatic);
            && Place(r, key) == Place(entries, key) < |r| && Entries(r)
            && r == if Place(entries, key) < |entries| then entries else entries + [Slot(false, key, isStatic, Null)]
  {
    hide Place;
    var n, r := Place(entries, key), Resolved(entries, key, isStatic);
    var m := Place(r, key);
    assert n < |r| && r[n].key == key;
    assert m < |entries| ==> entries[m] == r[m];
  }

  /** A missing key is added, bound to null; nothing else changes. */
  lemma ResolvedContents(entries: seq<Slot>, key: string, isStatic: bool)
    requires Entries(entries)
    ensures Contents(Resolved(entries, key, isStatic)) ==
            if key in Contents(entries) then Contents(entries) else Contents(entries)[key := Null]
  {
    hide Place;
    PlaceIsLookup(entries, key);
    var r := Resolved(entries, key, isStatic);
    if r != entries {
      assert r[..|r| - 1] == entries;
    }
  }

  lemma StoredContents(entries: seq<Slot>, key: string, value: Value)
    requires Entries(entries) && Place(entries, key) < |entries|
    ensures Contents(Rebound(entries, Place(entries, key), value)) == Contents(entries)[key := value]
  {
    hide Place, Contents;
    var n := Place(entries, key);
    var r := Rebound(entries, n, value);
    var after, before := Contents(r), Contents(entries);
    forall k ensures k in after <==> k in before || k == key
             ensures k in after ==> after[k] == before[key := value][k] {
      PlaceIsLookup(entries, k);
      PlaceIsLookup(r, k);
      assert Place(r, k) == Place(entries, k) by {
        var p, q := Place(r, k), Place(entries, k);
        assert p < |r| ==> entries[p].key == k;
        assert q < |r| ==> r[q].key == k;
      }
    }
  }

  /** What ResolveReference makes of the entries. */
  ghost function Resolved(entries: seq<Slot>, key: string, isStatic: bool): seq<Slot> {
    if Place(entries, key) < |entries| then entries else entries + [Slot(false, key, isStatic, Null)]
  }

  lemma PageAt(items: seq<Slot>, entries: seq<Slot>, i: nat, j: nat)
    requires Page(items, entries, i) && j < ITEMS_PER_LINK
    ensures |items| == ITEMS_PER_LINK && items[j] == SlotAt(entries, ITEMS_PER_LINK * i + j)
  {
  }

  lemma EntriesGrow(entries: seq<Slot>, slot: Slot)
    requires Entries(entries) && !slot.available
    requires forall n :: 0 <= n < |entries| ==> entries[n].key != slot.key
    ensures Entries(entries + [slot])
  {
  }

  lemma EmptyPage(entries: seq<Slot>, i: nat)
    requires |entries| <= ITEMS_PER_LINK * i
    ensures Page(seq(ITEMS_PER_LINK, _ => FREE), entries, i)
  {
  }

  lemma PageSet(items: seq<Slot>, entries: seq<Slot>, i: nat, j: nat, slot: Slot)
    requires Page(items, entries, i) && j < ITEMS_PER_LINK && ITEMS_PER_LINK * i + j == |entries|
    ensures |items| == ITEMS_PER_LINK && items[j] == FREE
    ensures Page(items[j := slot], entries + [slot], i)
  {
  }

  /** Another page does not see the new entry. */
  lemma PageKept(items: seq<Slot>, entries: seq<Slot>, i: nat, slot: Slot)
    requires Page(items, entries, i)
    requires !(ITEMS_PER_LINK * i <= |entries| < ITEMS_PER_LINK * i + ITEMS_PER_LINK)
    ensures Page(items, entries + [slot], i)
  {
  }
}

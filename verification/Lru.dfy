/** The proxy's cache: a map to entries that are linked in the order of their last use. */
module Lru {

  import opened Common

  type Value(!new, ==)

  class Entry {
    const key: string
    var value: Value
    var next: Entry?
    var prev: Entry?

    constructor (key: string, value: Value)
      ensures this.key == key && this.value == value && next == null && prev == null
    {
      this.key, this.value, next, prev := key, value, null, null;
    }
  }

  // ---------------------------------------------------------------- the simple cache

  /** A cache as the list of its keys and values, the last used first. */
  type Cache = seq<(string, Value)>

  ghost predicate Has(cache: Cache, key: string) {
    exists i :: 0 <= i < |cache| && cache[i].0 == key
  }

  ghost function Find(cache: Cache, key: string): (i: nat)
    requires Has(cache, key)
    ensures i < |cache| && cache[i].0 == key
    ensures forall j :: 0 <= j < i ==> cache[j].0 != key
  {
    if cache[0].0 == key then 0
    else
      assert Has(cache[1..], key) by {
        var i :| 0 <= i < |cache| && cache[i].0 == key;
        assert cache[1..][i - 1].0 == key;
      }
      1 + Find(cache[1..], key)
  }

  /** The key at index i, with a value, goes to the front. */
  ghost function Used(cache: Cache, i: nat, value: Value): Cache
    requires i < |cache|
  {
    [(cache[i].0, value)] + cache[..i] + cache[i + 1..]
  }

  /** What a use of a key with a value makes of a cache of some capacity: a new key takes the place of
      the last used one when the cache is full. */
  ghost function Store(capacity: nat, cache: Cache, key: string, value: Value): Cache {
    if Has(cache, key) then Used(cache, Find(cache, key), value)
    else
      var more := [(key, value)] + cache;
      if |more| > capacity then more[..|more| - 1] else more
  }

  ghost predicate OneEach(cache: Cache) {
    forall i, j :: 0 <= i < j < |cache| ==> cache[i].0 != cache[j].0
  }

  lemma FindIs(cache: Cache, i: nat)
    requires OneEach(cache) && i < |cache|
    ensures Has(cache, cache[i].0) && Find(cache, cache[i].0) == i
  {
  }

  // ---------------------------------------------------------------- the list in the heap

  /** The entries are linked forward and backward in this order. */
  ghost predicate Linked(list: seq<Entry>)
    reads list
  {
    forall i :: 0 <= i < |list| ==> LinkedAt(list, i)
  }

  ghost predicate LinkedAt(list: seq<Entry>, i: nat)
    requires i < |list|
    reads list
  {
    list[i].prev == At(list, i - 1) && list[i].next == At(list, i + 1)
  }

  /** The entry at an index, or null beyond the ends. */
  function At(list: seq<Entry>, i: int): Entry? {
    if 0 <= i < |list| then list[i] else null
  }

  /** The map leads to exactly the entries of the list. */
  ghost predicate Indexed(list: seq<Entry>, cache: map<string, Entry>) {
    && (forall i :: 0 <= i < |list| ==> list[i].key in cache && cache[list[i].key] == list[i])
    && (forall k <- cache :: cache[k] in list && cache[k].key == k)
  }

  ghost function Pairs(list: seq<Entry>): Cache
    reads list
  {
    seq(|list|, i requires 0 <= i < |list| reads list => (list[i].key, list[i].value))
  }

  lemma IndexedDistinct(list: seq<Entry>, cache: map<string, Entry>)
    requires Indexed(list, cache) && NoDup(list)
    ensures OneEach(Pairs(list))
    ensures forall k :: k in cache <==> Has(Pairs(list), k)
  {
    forall k | k in cache
      ensures Has(Pairs(list), k)
    {
      var i :| 0 <= i < |list| && list[i] == cache[k];
      assert Pairs(list)[i].0 == k;
    }
  }

  lemma {:induction false} IndexedSize(list: seq<Entry>, cache: map<string, Entry>)
    requires Indexed(list, cache) && NoDup(list)
    ensures |cache| == |list|
  {
    NoDupSize(list);
    KeysSize(list, cache);
  }

  lemma {:induction false} KeysSize(list: seq<Entry>, cache: map<string, Entry>)
    requires Indexed(list, cache) && NoDup(list)
    ensures |cache.Keys| == |list|
    decreases |list|
  {
    if list == [] {
      assert cache.Keys == {};
    } else {
      var front, last := list[..|list| - 1], list[|list| - 1];
      var rest := cache - {last.key};
      assert list == front + [last];
      forall k | k in rest
        ensures rest[k] in front
      {
        assert cache[k] in list;
      }
      KeysSize(front, rest);
      assert cache.Keys == rest.Keys + {last.key};
    }
  }

  class LRUCache {
    const capacity: nat
    var cache: map<string, Entry>
    var head: Entry?
    var tail: Entry?
    /** The entries from head to tail. */
    ghost var list: seq<Entry>

    ghost predicate Valid()
      reads this, list
    {
      && NoDup(list) && Linked(list) && Indexed(list, cache)
      && head == At(list, 0) && tail == At(list, |list| - 1)
      && |list| <= capacity
    }

    ghost function Model(): Cache
      reads this, list
    {
      Pairs(list)
    }

    constructor (capacity: nat)
      ensures Valid() && this.capacity == capacity && Model() == [] && list == []
    {
      this.capacity, cache, head, tail, list := capacity, map[], null, null, [];
    }

    /** Takes an entry that is not the first out of the list. */
    method Unlink(entry: Entry, ghost i: nat)
      requires NoDup(list) && Linked(list) && 0 < i < |list| && list[i] == entry
      requires tail == At(list, |list| - 1)
      modifies this`tail, this`list, list
      ensures list == old(list)[..i] + old(list)[i + 1..]
      ensures NoDup(list) && Linked(list) && entry !in list && tail == At(list, |list| - 1)
              && At(list, 0) == At(old(list), 0)
      ensures forall e <- old(list) :: e.value == old(e.value)
    {
      ghost var before := list;
      assert LinkedAt(before, i);
      if entry.prev != null {
        entry.prev.next := entry.next;
      }
      if entry.next != null {
        entry.next.prev := entry.prev;
      }
      if entry == tail {
        tail := entry.prev;
      }
      list := before[..i] + before[i + 1..];
      forall k | 0 <= k < |before| && k != i
        ensures BridgedAt(before, i, k)
      {
        assert old(LinkedAt(before, k));
      }
      TakenOut(before, i, list);
      BridgedLinked(before, i, list);
    }

    /** Puts an entry in front of the list. */
    method PushFront(entry: Entry)
      requires NoDup(list) && Linked(list) && entry !in list
      requires head == At(list, 0) && tail == At(list, |list| - 1)
      modifies this`head, this`tail, this`list, list, entry`next, entry`prev
      ensures list == [entry] + old(list) && NoDup(list) && Linked(list)
      ensures head == entry && tail == At(list, |list| - 1)
      ensures forall e <- list :: e.value == old(e.value)
    {
      ghost var before := list;
      entry.next := head;
      entry.prev := null;
      if head != null {
        head.prev := entry;
      }
      head := entry;
      if tail == null {
        tail := entry;
      }
      list := [entry] + before;
      forall j | 0 <= j < |list|
        ensures LinkedAt(list, j)
      {
        assert j > 0 ==> old(LinkedAt(before, j - 1));
      }
    }

    /** Moves an entry to the front. */
    method MoveToHead(entry: Entry, ghost i: nat)
      requires Valid() && i < |list| && list[i] == entry
      modifies this`head, this`tail, this`list, list
      ensures Valid() && list == [entry] + old(list)[..i] + old(list)[i + 1..]
      ensures forall e <- old(list) :: e in list && e.value == old(e.value)
      ensures forall e <- list :: e in old(list)
    {
      hide Indexed, Linked, NoDup;
      ghost var before := list;
      if entry == head {
        FirstIs(list, i);
        assert list == [entry] + list[..0] + list[1..];
        return;
      }
      Unlink(entry, i);
      PushFront(entry);
      assert list == [entry] + before[..i] + before[i + 1..];
      MovedIndex(before, i, list, cache);
    }

    /** Gives an entry another value. */
    method SetValue(entry: Entry, value: Value, ghost i: nat)
      requires Valid() && i < |list| && list[i] == entry
      modifies entry`value
      ensures Valid() && entry.value == value
      ensures Model() == old(Model())[i := (entry.key, value)]
    {
      entry.value := value;
      forall j | 0 <= j < |list|
        ensures LinkedAt(list, j)
      {
        assert old(LinkedAt(list, j));
      }
    }

    /** The value of a key, which becomes the last used one. */
    method Get(key: string) returns (value: Option<Value>)
      requires Valid()
      modifies this`head, this`tail, this`list, list
      ensures Valid() && forall e <- list :: e in old(list)
      ensures if Has(old(Model()), key)
              then var i := Find(old(Model()), key);
                   value == Some(old(Model())[i].1) && Model() == Used(old(Model()), i, old(Model())[i].1)
              else value == None && Model() == old(Model())
    {
      hide Linked, Used, Has, Find;
      IndexedDistinct(list, cache);
      if key in cache {
        var entry := cache[key];
        ghost var i := IndexOf(list, entry);
        FindIs(Pairs(list), i);
        ghost var before, pairs := list, Model();
        PairsAre(before);
        MoveToHead(entry, i);
        MovedPairs(before, list, pairs, i);
        value := Some(entry.value);
      } else {
        value := None;
      }
    }

    /** Stores a value; a new key may push the least recently used one out. */
    method Put(key: string, value: Value)
      requires Valid()
      modifies this`head, this`tail, this`list, this`cache, list
      ensures Valid() && forall e <- list :: e in old(list) || fresh(e)
      ensures Model() == Store(capacity, old(Model()), key, value)
    {
      hide Linked, Used, Has, Find, Pairs, Indexed;
      IndexedDistinct(list, cache);
      KnownEntry(list, cache, key);
      if key in cache {
        var entry := cache[key];
        ghost var i := IndexOf(list, entry);
        PairsAre(list);
        FindIs(Pairs(list), i);
        SetValue(entry, value, i);
        ghost var before, pairs := list, Model();
        PairsAre(before);
        MoveToHead(entry, i);
        MovedPairs(before, list, pairs, i);
        UsedTwice(old(Model()), i, key, value);
        return;
      }
      PutNew(key, value);
    }

    /** Stores a value under a new key. */
    method PutNew(key: string, value: Value)
      requires Valid() && key !in cache
      modifies this`head, this`tail, this`list, this`cache, list
      ensures Valid() && forall e <- list :: e in old(list) || fresh(e)
      ensures var more := [(key, value)] + old(Model());
              Model() == if |more| > capacity then more[..|more| - 1] else more
    {
      hide Linked, Pairs, Indexed;
      var newEntry := new Entry(key, value);
      NewEntry(list, cache, newEntry);
      PairsAre(list);
      cache := cache[key := newEntry];
      PushFront(newEntry);
      AddedPairs(old(list), list, old(Model()), newEntry);
      IndexedSize(list, cache);
      if |cache| > capacity {
        var _, _ := EvictLast();
      }
    }

    /** Removes the least recently used key, if there is one. */
    method Evict() returns (evicted: Option<(string, Value)>)
      requires Valid()
      modifies this`head, this`tail, this`list, this`cache, list
      ensures Valid() && forall e <- list :: e in old(list)
      ensures if old(Model()) == [] then evicted == None && Model() == []
              else evicted == Some(old(Model())[|old(Model())| - 1]) && Model() == old(Model())[..|old(Model())| - 1]
    {
      hide Linked;
      if tail == null {
        return None;
      }
      var key, value := EvictLast();
      evicted := Some((key, value));
    }

    /** Removes the last entry of the list. */
    method EvictLast() returns (key: string, value: Value)
      requires NoDup(list) && Linked(list) && Indexed(list, cache) && list != []
      requires head == At(list, 0) && tail == At(list, |list| - 1)
      modifies this`head, this`tail, this`list, this`cache, list
      ensures NoDup(list) && Linked(list) && Indexed(list, cache)
      ensures head == At(list, 0) && tail == At(list, |list| - 1)
      ensures list == old(list)[..|old(list)| - 1]
      ensures (key, value) == old(Model())[|old(list)| - 1]
      ensures Model() == old(Model())[..|old(list)| - 1]
    {
      hide Indexed;
      ghost var before, n := list, |list| - 1;
      assert LinkedAt(before, n);
      var evicted := tail;
      key := evicted.key;
      value := evicted.value;
      LastIndexed(list, cache);
      cache := cache - {key};
      if head == tail {
        head := null;
        tail := null;
      } else {
        tail := tail.prev;
        tail.next := null;
      }
      list := before[..n];
      forall j | 0 <= j < |list|
        ensures LinkedAt(list, j)
      {
        assert old(LinkedAt(before, j));
      }
    }
  }

  /** The neighbours of the entry at an index are linked to each other. */
  ghost predicate Bridged(list: seq<Entry>, i: nat)
    reads list
  {
    forall k :: 0 <= k < |list| && k != i ==> BridgedAt(list, i, k)
  }

  ghost predicate BridgedAt(list: seq<Entry>, i: nat, k: nat)
    requires k < |list|
    reads list
  {
    && list[k].prev == At(list, if k == i + 1 then i - 1 else k - 1)
    && list[k].next == At(list, if k == i - 1 then i + 1 else k + 1)
  }

  lemma BridgedLinked(list: seq<Entry>, i: nat, rest: seq<Entry>)
    requires NoDup(list) && i < |list| && rest == list[..i] + list[i + 1..] && Bridged(list, i)
    ensures Linked(rest)
  {
    TakenOut(list, i, rest);
    forall j | 0 <= j < |rest|
      ensures LinkedAt(rest, j)
    {
      var k := if j < i then j else j + 1;
      assert rest[j] == list[k] && BridgedAt(list, i, k);
    }
  }

  lemma TakenOut(list: seq<Entry>, i: nat, rest: seq<Entry>)
    requires NoDup(list) && i < |list| && rest == list[..i] + list[i + 1..]
    ensures |rest| == |list| - 1 && NoDup(rest) && list[i] !in rest
    ensures forall j :: 0 <= j < i ==> rest[j] == list[j]
    ensures forall j :: i <= j < |rest| ==> rest[j] == list[j + 1]
  {
  }

  lemma FirstIs(list: seq<Entry>, i: nat)
    requires NoDup(list) && i < |list| && list[i] == list[0]
    ensures i == 0
  {
  }

  lemma MovedIndex(list: seq<Entry>, i: nat, moved: seq<Entry>, cache: map<string, Entry>)
    requires Indexed(list, cache) && 0 <= i < |list| && moved == [list[i]] + list[..i] + list[i + 1..]
    ensures Indexed(moved, cache)
    ensures forall e :: e in moved <==> e in list
  {
    assert list == list[..i] + [list[i]] + list[i + 1..];
    assert forall e :: e in moved <==> e in list;
  }

  ghost function IndexOf(list: seq<Entry>, e: Entry): (i: nat)
    requires e in list
    ensures i < |list| && list[i] == e
  {
    var i :| 0 <= i < |list| && list[i] == e;
    i
  }

  lemma PairsAre(list: seq<Entry>)
    ensures |Pairs(list)| == |list|
    ensures forall j :: 0 <= j < |list| ==> Pairs(list)[j].0 == list[j].key && Pairs(list)[j].1 == list[j].value
  {
  }

  /** The entries of a list, all with the values that are in `pairs`, in another order. */
  lemma MovedPairs(before: seq<Entry>, list: seq<Entry>, pairs: Cache, i: nat)
    requires |pairs| == |before| && i < |before|
    requires forall j :: 0 <= j < |before| ==> pairs[j].0 == before[j].key && pairs[j].1 == before[j].value
    requires list == [before[i]] + before[..i] + before[i + 1..]
    ensures Pairs(list) == Used(pairs, i, before[i].value)
  {
  }

  lemma AddedPairs(before: seq<Entry>, list: seq<Entry>, pairs: Cache, e: Entry)
    requires |pairs| == |before|
    requires forall j :: 0 <= j < |before| ==> pairs[j] == (before[j].key, before[j].value)
    requires list == [e] + before
    ensures Pairs(list) == [(e.key, e.value)] + pairs
  {
  }

  lemma UsedTwice(pairs: Cache, i: nat, key: string, value: Value)
    requires i < |pairs| && pairs[i].0 == key
    ensures Used(pairs[i := (key, value)], i, value) == Used(pairs, i, value)
  {
  }

  lemma KnownEntry(list: seq<Entry>, cache: map<string, Entry>, key: string)
    requires Indexed(list, cache)
    ensures key in cache ==> cache[key] in list && cache[key].key == key
  {
  }

  lemma NewEntry(list: seq<Entry>, cache: map<string, Entry>, e: Entry)
    requires Indexed(list, cache) && e.key !in cache
    ensures e !in list && Indexed([e] + list, cache[e.key := e])
  {
    assert forall x :: x in [e] + list <==> x == e || x in list;
  }

  lemma LastIndexed(list: seq<Entry>, cache: map<string, Entry>)
    requires Indexed(list, cache) && NoDup(list) && list != []
    ensures var n := |list| - 1; Indexed(list[..n], cache - {list[n].key})
  {
    var n := |list| - 1;
    assert list == list[..n] + [list[n]];
  }
}

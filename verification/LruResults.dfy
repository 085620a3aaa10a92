/** What the cache is for: over any run it keeps the keys that were used last, each with the value that was
    stored last. */
module LruResults {

  import opened Common
  import opened Lru

  datatype Op = Get(key: string) | Put(key: string, value: Value) | Evict

  /** An operation on the simple cache. */
  ghost function Step(capacity: nat, cache: Cache, op: Op): Cache {
    match op
    case Get(key) => if Has(cache, key) then Used(cache, Find(cache, key), cache[Find(cache, key)].1) else cache
    case Put(key, value) => Store(capacity, cache, key, value)
    case Evict => if cache == [] then [] else cache[..|cache| - 1]
  }

  ghost function After(capacity: nat, ops: seq<Op>): Cache {
    if ops == [] then [] else Step(capacity, After(capacity, ops[..|ops| - 1]), ops[|ops| - 1])
  }

  /** Operation k uses a key: it stores it, or finds it. */
  ghost predicate Uses(capacity: nat, ops: seq<Op>, k: nat, key: string)
    requires k < |ops|
  {
    || (ops[k].Put? && ops[k].key == key)
    || (ops[k] == Get(key) && Has(After(capacity, ops[..k]), key))
  }

  /** One more than the number of the last operation that used a key; 0 if none did. */
  ghost function LastUse(capacity: nat, ops: seq<Op>, key: string): (t: nat)
    ensures t <= |ops|
  {
    if ops == [] then 0
    else if Uses(capacity, ops, |ops| - 1, key) then |ops|
    else LastUse(capacity, ops[..|ops| - 1], key)
  }

  /** The value stored last under a key. */
  ghost function LastValue(ops: seq<Op>, key: string): Option<Value> {
    if ops == [] then None
    else if ops[|ops| - 1].Put? && ops[|ops| - 1].key == key then Some(ops[|ops| - 1].value)
    else LastValue(ops[..|ops| - 1], key)
  }

  /** The keys are in the order of their last uses, each with its last value. */
  ghost predicate Recent(capacity: nat, ops: seq<Op>, cache: Cache) {
    |cache| <= capacity && InOrder(capacity, ops, cache)
  }

  ghost predicate InOrder(capacity: nat, ops: seq<Op>, cache: Cache) {
    && OneEach(cache)
    && (forall i, j :: 0 <= i < j < |cache| ==>
          LastUse(capacity, ops, cache[i].0) > LastUse(capacity, ops, cache[j].0))
    && (forall i :: 0 <= i < |cache| ==> LastValue(ops, cache[i].0) == Some(cache[i].1))
  }

  lemma UsedAt(cache: Cache, i: nat, value: Value)
    requires i < |cache|
    ensures |Used(cache, i, value)| == |cache| && Used(cache, i, value)[0] == (cache[i].0, value)
    ensures forall j :: 0 < j <= i ==> Used(cache, i, value)[j] == cache[j - 1]
    ensures forall j :: i < j < |cache| ==> Used(cache, i, value)[j] == cache[j]
  {
  }

  /** A use of a key that is in the cache. */
  lemma RecentUsed(capacity: nat, before: seq<Op>, op: Op, cache: Cache, i: nat, value: Value)
    requires Recent(capacity, before, cache) && i < |cache|
    requires LastUse(capacity, before + [op], cache[i].0) == |before| + 1
    requires forall k :: k != cache[i].0 ==> LastUse(capacity, before + [op], k) == LastUse(capacity, before, k)
    requires LastValue(before + [op], cache[i].0) == Some(value)
    requires forall k :: k != cache[i].0 ==> LastValue(before + [op], k) == LastValue(before, k)
    ensures Recent(capacity, before + [op], Used(cache, i, value))
  {
    UsedAt(cache, i, value);
    hide Used, LastUse, LastValue;
    var used := Used(cache, i, value);
    forall a, b | 0 <= a < b < |used|
      ensures used[a].0 != used[b].0
      ensures LastUse(capacity, before + [op], used[a].0) > LastUse(capacity, before + [op], used[b].0)
    {
      var b' := if b <= i then b - 1 else b;
      assert used[b] == cache[b'];
      LastUseBound(capacity, before, cache[b'].0);
      if a > 0 {
        assert used[a] == cache[if a <= i then a - 1 else a];
      }
    }
    forall a | 0 <= a < |used|
      ensures LastValue(before + [op], used[a].0) == Some(used[a].1)
    {
      if a > 0 {
        assert used[a] == cache[if a <= i then a - 1 else a];
      }
    }
  }

  lemma LastUseBound(capacity: nat, ops: seq<Op>, key: string)
    ensures LastUse(capacity, ops, key) <= |ops|
  {
  }

  /** A use of a key that is not in the cache puts it in front. */
  lemma OrderNew(capacity: nat, before: seq<Op>, op: Op, cache: Cache, key: string, value: Value)
    requires InOrder(capacity, before, cache) && !Has(cache, key)
    requires LastUse(capacity, before + [op], key) == |before| + 1
    requires forall k :: k != key ==> LastUse(capacity, before + [op], k) == LastUse(capacity, before, k)
    requires LastValue(before + [op], key) == Some(value)
    requires forall k :: k != key ==> LastValue(before + [op], k) == LastValue(before, k)
    ensures InOrder(capacity, before + [op], [(key, value)] + cache)
  {
    hide LastUse, LastValue;
    var ops, more := before + [op], [(key, value)] + cache;
    forall b | 0 < b < |more|
      ensures more[b] == cache[b - 1] && more[b].0 != key && LastUse(capacity, before, more[b].0) <= |before|
    {
      LastUseBound(capacity, before, more[b].0);
    }
    forall a, b | 0 <= a < b < |more|
      ensures more[a].0 != more[b].0 && LastUse(capacity, ops, more[a].0) > LastUse(capacity, ops, more[b].0)
    {
      assert a > 0 ==> more[a] == cache[a - 1];
    }
  }

  lemma OrderPrefix(capacity: nat, ops: seq<Op>, cache: Cache, kept: Cache)
    requires InOrder(capacity, ops, cache) && |kept| <= |cache|
    requires forall a :: 0 <= a < |kept| ==> kept[a] == cache[a]
    ensures InOrder(capacity, ops, kept)
  {
    hide LastUse, LastValue;
  }

  lemma RecentNew(capacity: nat, before: seq<Op>, op: Op, cache: Cache, key: string, value: Value)
    requires Recent(capacity, before, cache) && !Has(cache, key)
    requires LastUse(capacity, before + [op], key) == |before| + 1
    requires forall k :: k != key ==> LastUse(capacity, before + [op], k) == LastUse(capacity, before, k)
    requires LastValue(before + [op], key) == Some(value)
    requires forall k :: k != key ==> LastValue(before + [op], k) == LastValue(before, k)
    ensures Recent(capacity, before + [op], Store(capacity, cache, key, value))
  {
    hide InOrder, Store;
    StoreKeeps(capacity, cache, key, value);
    OrderNew(capacity, before, op, cache, key, value);
    OrderPrefix(capacity, before + [op], [(key, value)] + cache, Store(capacity, cache, key, value));
  }

  lemma StoreKeeps(capacity: nat, cache: Cache, key: string, value: Value)
    requires !Has(cache, key) && |cache| <= capacity
    ensures var kept, more := Store(capacity, cache, key, value), [(key, value)] + cache;
            |kept| <= |more| && |kept| <= capacity && forall a :: 0 <= a < |kept| ==> kept[a] == more[a]
  {
  }

  lemma StepUse(capacity: nat, before: seq<Op>, op: Op)
    ensures forall key :: LastUse(capacity, before + [op], key)
                          == if (op.Put? && op.key == key) || (op == Get(key) && Has(After(capacity, before), key))
                             then |before| + 1 else LastUse(capacity, before, key)
    ensures forall key :: LastValue(before + [op], key)
                          == if op.Put? && op.key == key then Some(op.value) else LastValue(before, key)
    ensures After(capacity, before + [op]) == Step(capacity, After(capacity, before), op)
  {
    var ops := before + [op];
    assert ops[..|before|] == before;
  }

  lemma RecentGet(capacity: nat, before: seq<Op>, key: string)
    requires Recent(capacity, before, After(capacity, before))
    ensures Recent(capacity, before + [Get(key)], After(capacity, before + [Get(key)]))
  {
    hide LastUse, LastValue, After, Used;
    var cache := After(capacity, before);
    StepUse(capacity, before, Get(key));
    if Has(cache, key) {
      RecentUsed(capacity, before, Get(key), cache, Find(cache, key), cache[Find(cache, key)].1);
    }
  }

  lemma RecentPut(capacity: nat, before: seq<Op>, key: string, value: Value)
    requires Recent(capacity, before, After(capacity, before))
    ensures Recent(capacity, before + [Put(key, value)], After(capacity, before + [Put(key, value)]))
  {
    hide LastUse, LastValue, After, Used, Recent;
    var cache := After(capacity, before);
    StepUse(capacity, before, Put(key, value));
    if Has(cache, key) {
      RecentUsed(capacity, before, Put(key, value), cache, Find(cache, key), value);
    } else {
      RecentNew(capacity, before, Put(key, value), cache, key, value);
    }
  }

  lemma RecentEvict(capacity: nat, before: seq<Op>)
    requires Recent(capacity, before, After(capacity, before))
    ensures Recent(capacity, before + [Evict], After(capacity, before + [Evict]))
  {
    hide LastUse, LastValue, After;
    StepUse(capacity, before, Evict);
  }

  /** After any run the keys are in the order of their last uses, there are no more than the capacity
      allows, and each has the value that was stored last. */
  lemma {:induction false} RecentFirst(capacity: nat, ops: seq<Op>)
    ensures Recent(capacity, ops, After(capacity, ops))
    decreases |ops|
  {
    if ops != [] {
      var before, op := ops[..|ops| - 1], ops[|ops| - 1];
      assert ops == before + [op];
      RecentFirst(capacity, before);
      hide Recent, After;
      match op
      case Get(key) => RecentGet(capacity, before, key);
      case Put(key, value) => RecentPut(capacity, before, key, value);
      case Evict => RecentEvict(capacity, before);
    }
  }

  // ---------------------------------------------------------------- what is not in the cache

  /** A key that was used and is not in the cache had to go: the cache is full, and all its keys were used
      later. */
  ghost predicate Displaced(capacity: nat, ops: seq<Op>, cache: Cache, key: string) {
    && |cache| == capacity
    && forall k :: Has(cache, k) ==> LastUse(capacity, ops, k) > LastUse(capacity, ops, key)
  }

  ghost predicate LastOnes(capacity: nat, ops: seq<Op>, cache: Cache) {
    && (forall k :: Has(cache, k) ==> LastUse(capacity, ops, k) > 0)
    && (forall k :: LastUse(capacity, ops, k) > 0 && !Has(cache, k) ==> Displaced(capacity, ops, cache, k))
  }

  /** One of the keys was used now. */
  lemma LastOnesUsed(capacity: nat, before: seq<Op>, op: Op, cache: Cache, i: nat, value: Value)
    requires LastOnes(capacity, before, cache) && i < |cache|
    requires LastUse(capacity, before + [op], cache[i].0) == |before| + 1
    requires forall k :: k != cache[i].0 ==> LastUse(capacity, before + [op], k) == LastUse(capacity, before, k)
    ensures LastOnes(capacity, before + [op], Used(cache, i, value))
  {
    UsedAt(cache, i, value);
    SameKeys(cache, i, value);
    hide Used, LastUse, Has;
    assert Has(cache, cache[i].0) by { HasAt(cache, i); }
    assert forall k :: LastUse(capacity, before, k) <= |before|;
  }

  lemma HasAt(cache: Cache, i: nat)
    requires i < |cache|
    ensures Has(cache, cache[i].0)
  {
  }

  lemma SameKeys(cache: Cache, i: nat, value: Value)
    requires i < |cache|
    ensures forall k :: Has(Used(cache, i, value), k) <==> Has(cache, k)
  {
    UsedAt(cache, i, value);
    hide Used;
    var used := Used(cache, i, value);
    forall k | Has(cache, k)
      ensures Has(used, k)
    {
      var a :| 0 <= a < |cache| && cache[a].0 == k;
      assert used[if a == i then 0 else if a < i then a + 1 else a].0 == k;
    }
    forall k | Has(used, k)
      ensures Has(cache, k)
    {
      var a :| 0 <= a < |used| && used[a].0 == k;
      assert cache[if a == 0 then i else if a <= i then a - 1 else a].0 == k;
    }
  }

  /** A new key, which takes the place of the one used longest ago if the cache is full. */
  lemma LastOnesNew(capacity: nat, before: seq<Op>, op: Op, cache: Cache, key: string, value: Value)
    requires LastOnes(capacity, before, cache) && Recent(capacity, before, cache) && !Has(cache, key)
    requires LastUse(capacity, before + [op], key) == |before| + 1
    requires forall k :: k != key ==> LastUse(capacity, before + [op], k) == LastUse(capacity, before, k)
    ensures LastOnes(capacity, before + [op], Store(capacity, cache, key, value))
  {
    hide LastUse, LastValue, Has, Store, InOrder, Displaced;
    var kept := Store(capacity, cache, key, value);
    StoredKeys(capacity, cache, key, value);
    forall k | LastUse(capacity, before + [op], k) > 0 && !Has(kept, k)
      ensures Displaced(capacity, before + [op], kept, k)
    {
      if k == key || Has(cache, k) {
        DropsOldest(capacity, before, cache, key, value, k);
      }
      StillDisplaced(capacity, before, op, cache, kept, key, k);
    }
  }

  lemma StillDisplaced(capacity: nat, before: seq<Op>, op: Op, cache: Cache, kept: Cache, key: string, k: string)
    requires |cache| <= |kept| <= capacity && (k == key ==> kept == [])
    requires k == key || Has(cache, k) ==> |kept| == capacity
    requires k != key && !Has(cache, k) ==> Displaced(capacity, before, cache, k)
    requires forall other :: Has(kept, other) ==> other == key || Has(cache, other)
    requires forall other :: Has(cache, k) && Has(kept, other) && other != key ==>
               LastUse(capacity, before, other) > LastUse(capacity, before, k)
    requires LastUse(capacity, before + [op], key) == |before| + 1
    requires forall k :: k != key ==> LastUse(capacity, before + [op], k) == LastUse(capacity, before, k)
    ensures Displaced(capacity, before + [op], kept, k)
  {
    hide LastUse;
    if k == key {
      assert forall other :: !Has(kept, other);
    } else {
      hide Has;
      LastUseBound(capacity, before, k);
    }
  }

  lemma StoredKeys(capacity: nat, cache: Cache, key: string, value: Value)
    requires !Has(cache, key) && |cache| <= capacity
    ensures var kept := Store(capacity, cache, key, value);
            && (forall k :: Has(kept, k) ==> k == key || Has(cache, k))
            && |cache| <= |kept| <= capacity
  {
    var kept := Store(capacity, cache, key, value);
    forall k | Has(kept, k)
      ensures k == key || Has(cache, k)
    {
      var a :| 0 <= a < |kept| && kept[a].0 == k;
      assert a > 0 ==> cache[a - 1].0 == k;
    }
  }

  /** Only the last key has to go, and the new one only if nothing fits. */
  lemma StoredStay(capacity: nat, cache: Cache, key: string, value: Value, b: nat)
    requires !Has(cache, key) && b < |cache| <= capacity
    ensures b + 1 < capacity ==> Has(Store(capacity, cache, key, value), cache[b].0)
  {
    var kept := Store(capacity, cache, key, value);
    if b + 1 < capacity {
      assert kept[b + 1] == cache[b];
    }
  }

  lemma StoredFront(capacity: nat, cache: Cache, key: string, value: Value)
    requires !Has(cache, key) && |cache| <= capacity
    ensures var kept := Store(capacity, cache, key, value); if capacity > 0 then Has(kept, key) else kept == []
  {
    if capacity > 0 {
      assert Store(capacity, cache, key, value)[0].0 == key;
    }
  }

  lemma DropsOldest(capacity: nat, before: seq<Op>, cache: Cache, key: string, value: Value, k: string)
    requires Recent(capacity, before, cache) && !Has(cache, key)
    requires (k == key || Has(cache, k)) && !Has(Store(capacity, cache, key, value), k)
    ensures var kept := Store(capacity, cache, key, value);
            && |kept| == capacity
            && (k == key ==> kept == [])
            && forall other :: Has(kept, other) && other != key ==>
                 LastUse(capacity, before, other) > LastUse(capacity, before, k)
  {
    hide LastUse, LastValue, Store;
    var kept := Store(capacity, cache, key, value);
    StoredFront(capacity, cache, key, value);
    StoredKeys(capacity, cache, key, value);
    if k != key {
      var b :| 0 <= b < |cache| && cache[b].0 == k;
      StoredStay(capacity, cache, key, value, b);
      forall other | Has(kept, other) && other != key
        ensures LastUse(capacity, before, other) > LastUse(capacity, before, k)
      {
        var a :| 0 <= a < |cache| && cache[a].0 == other;
        assert a != b;
      }
    }
  }

  /** In a run in which nobody evicts, the cache holds exactly the keys used last, as many as fit. */
  lemma {:induction false} RecentKept(capacity: nat, ops: seq<Op>)
    requires Evict !in ops
    ensures LastOnes(capacity, ops, After(capacity, ops))
    decreases |ops|
  {
    if ops != [] {
      var before, op := ops[..|ops| - 1], ops[|ops| - 1];
      assert ops == before + [op];
      RecentKept(capacity, before);
      RecentFirst(capacity, before);
      StepUse(capacity, before, op);
      hide LastUse, LastValue, After, Used, LastOnes, Recent;
      var cache := After(capacity, before);
      match op
      case Get(key) =>
        if Has(cache, key) {
          LastOnesUsed(capacity, before, op, cache, Find(cache, key), cache[Find(cache, key)].1);
        } else {
          LastOnesSame(capacity, before, op, cache);
        }
      case Put(key, value) =>
        if Has(cache, key) {
          LastOnesUsed(capacity, before, op, cache, Find(cache, key), value);
        } else {
          LastOnesNew(capacity, before, op, cache, key, value);
        }
    }
  }

  lemma LastOnesSame(capacity: nat, before: seq<Op>, op: Op, cache: Cache)
    requires LastOnes(capacity, before, cache)
    requires forall k :: LastUse(capacity, before + [op], k) == LastUse(capacity, before, k)
    ensures LastOnes(capacity, before + [op], cache)
  {
    hide LastUse;
  }

  /** The key that eviction removes was used longer ago than every other. */
  lemma EvictsLeastRecent(capacity: nat, ops: seq<Op>, i: nat)
    requires var cache := After(capacity, ops); i < |cache| - 1
    ensures var cache := After(capacity, ops);
            LastUse(capacity, ops, cache[|cache| - 1].0) < LastUse(capacity, ops, cache[i].0)
  {
    RecentFirst(capacity, ops);
  }

  method Perform(c: LRUCache, op: Op)
    requires c.Valid()
    modifies c, c.list
    ensures c.Valid() && c.Model() == Step(c.capacity, old(c.Model()), op)
    ensures forall e <- c.list :: e in old(c.list) || fresh(e)
  {
    hide Used, Has, Find, Linked, Indexed, Pairs;
    match op
    case Get(key) => var _ := c.Get(key);
    case Put(key, value) => c.Put(key, value);
    case Evict => var _ := c.Evict();
  }

  /** The linked cache does in any run what the simple one does. */
  method Run(c: LRUCache, ops: seq<Op>)
    requires c.Valid() && c.Model() == []
    modifies c, c.list
    ensures c.Valid() && c.Model() == After(c.capacity, ops)
    ensures Recent(c.capacity, ops, c.Model())
    ensures Evict !in ops ==> LastOnes(c.capacity, ops, c.Model())
  {
    hide Step, LRUCache.Valid, LRUCache.Model, Recent, LastOnes;
    assert ops[..0] == [];
    for k := 0 to |ops|
      invariant c.Valid() && c.Model() == After(c.capacity, ops[..k])
      invariant forall e <- c.list :: e in old(c.list) || fresh(e)
    {
      assert ops[..k + 1][..k] == ops[..k];
      assert forall i :: 0 <= i < |c.list| ==> c.list[i] in old(c.list) || fresh(c.list[i]);
      Perform(c, ops[k]);
    }
    assert ops[..|ops|] == ops;
    RecentFirst(c.capacity, ops);
    if Evict !in ops {
      RecentKept(c.capacity, ops);
    }
  }
}

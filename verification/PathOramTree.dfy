/** Where Path ORAM keeps blocks: a stash, and a tree of buckets in which every block is on the path to its
    leaf.  n is the number of levels. */
module PathOramTree {

  import opened Common
  import opened Bits
  import opened Positions

  type Data = seq<int>

  /** `Dummy` fills up buckets. */
  datatype Block = Dummy | Block(leafId: nat, index: nat, data: Data)

  // ---------------------------------------------------------------- positions

  /** The bucket at a level on the way to a leaf. */
  function P(n: nat, leaf: nat, level: nat): nat
    requires level < n
  {
    Pow2(level) - 1 + Shr(leaf, n - level - 1)
  }

  lemma {:induction false} ShrAbove(n: nat, leaf: nat, s: nat)
    requires s < n
    ensures Shr(Pow2(n - 1) + leaf, s) == Pow2(n - 1 - s) + Shr(leaf, s)
    decreases s
  {
    if s > 0 {
      ShrAbove(n, leaf, s - 1);
      assert Pow2(n - s) == 2 * Pow2(n - 1 - s);
    }
  }

  /** A bucket number is one less than the first bits of the leaf's number with a one put in front. */
  lemma PathBucket(n: nat, leaf: nat, level: nat)
    requires level < n && leaf < Pow2(n - 1)
    ensures P(n, leaf, level) + 1 == PosAt(n, Pow2(n - 1) + leaf, level)
    ensures P(n, leaf, level) < Pow2(n) - 1
    ensures BitLength(P(n, leaf, level) + 1) == level + 1
  {
    ShrAbove(n, leaf, n - 1 - level);
    PathPosition(n, Pow2(n - 1) + leaf, level);
    Pow2Monotone(level + 1, n);
  }

  /** The bucket is on the way to the leaf. */
  ghost predicate OnWay(n: nat, leaf: nat, bucket: nat) {
    exists level :: 0 <= level < n && P(n, leaf, level) == bucket
  }

  /** Paths that meet at a level are the same above it. */
  lemma MeetAbove(n: nat, a: nat, b: nat, level: nat)
    requires 0 < level < n && P(n, a, level) == P(n, b, level)
    ensures P(n, a, level - 1) == P(n, b, level - 1)
  {
    assert Shr(a, n - level) == Shr(a, n - level - 1) / 2;
    assert Shr(b, n - level) == Shr(b, n - level - 1) / 2;
  }

  lemma SameLevel(n: nat, a: nat, b: nat, k: nat, l: nat)
    requires k < n && l < n && a < Pow2(n - 1) && b < Pow2(n - 1)
    requires P(n, a, k) == P(n, b, l)
    ensures k == l
  {
    PathBucket(n, a, k);
    PathBucket(n, b, l);
  }

  lemma RootMeets(n: nat, a: nat, b: nat)
    requires 0 < n && a < Pow2(n - 1) && b < Pow2(n - 1)
    ensures P(n, a, 0) == P(n, b, 0)
  {
    PathBucket(n, a, 0);
    PathBucket(n, b, 0);
  }

  // ---------------------------------------------------------------- blocks

  ghost function Ids(blocks: seq<Block>): set<nat> {
    set b <- blocks | b.Block? :: b.index
  }

  /** No two blocks of the same index. */
  ghost predicate Single(blocks: seq<Block>) {
    forall j, k :: 0 <= j < k < |blocks| && blocks[j].Block? && blocks[k].Block? ==>
      blocks[j].index != blocks[k].index
  }

  ghost predicate Genuine(blocks: seq<Block>, contents: map<nat, Data>) {
    forall b <- blocks :: b.Block? ==> b.index in contents && b.data == contents[b.index]
  }

  /** The blocks of a list that are not dummies. */
  function Real(blocks: seq<Block>): seq<Block> {
    if blocks == [] then []
    else Real(blocks[..|blocks| - 1]) + if blocks[|blocks| - 1].Block? then [blocks[|blocks| - 1]] else []
  }

  lemma {:induction false} RealBlocks(blocks: seq<Block>)
    ensures forall b :: b in Real(blocks) <==> b in blocks && b.Block?
    ensures Single(blocks) ==> Single(Real(blocks))
  {
    if blocks != [] {
      var front, last := blocks[..|blocks| - 1], blocks[|blocks| - 1];
      assert blocks == front + [last];
      RealBlocks(front);
    }
  }

  lemma RealIds(blocks: seq<Block>)
    ensures Ids(Real(blocks)) == Ids(blocks)
  {
    RealBlocks(blocks);
  }

  lemma IdsConcat(a: seq<Block>, b: seq<Block>)
    ensures Ids(a + b) == Ids(a) + Ids(b)
    ensures Single(a) && Single(b) && Ids(a) !! Ids(b) ==> Single(a + b)
  {
    assert forall x :: x in a + b <==> x in a || x in b;
    if Single(a) && Single(b) && Ids(a) !! Ids(b) {
      forall j, k | 0 <= j < k < |a + b| && (a + b)[j].Block? && (a + b)[k].Block?
        ensures (a + b)[j].index != (a + b)[k].index
      {
        if j < |a| <= k {
          assert (a + b)[j] in a && (a + b)[k] in b;
          assert a[j].index in Ids(a) && b[k - |a|].index in Ids(b);
        } else if |a| <= j {
          assert b[j - |a|].index != b[k - |a|].index;
        }
      }
    }
  }

  lemma SingleLast(blocks: seq<Block>)
    requires Single(blocks) && blocks != [] && forall b <- blocks :: b.Block?
    ensures var front, last := blocks[..|blocks| - 1], blocks[|blocks| - 1];
            Single(front) && last.index !in Ids(front) && Ids(blocks) == Ids(front) + {last.index}
  {
    var front, last := blocks[..|blocks| - 1], blocks[|blocks| - 1];
    assert blocks == front + [last];
    IdsConcat(front, [last]);
    assert Ids([last]) == {last.index};
  }

  lemma {:induction false} SingleSize(blocks: seq<Block>)
    requires Single(blocks) && forall b <- blocks :: b.Block?
    ensures |Ids(blocks)| == |blocks|
  {
    if blocks != [] {
      SingleLast(blocks);
      hide Single, Ids;
      SingleSize(blocks[..|blocks| - 1]);
    } else {
      assert Ids(blocks) == {};
    }
  }

  // ---------------------------------------------------------------- the state

  /** Where each written block is: in a bucket, or in the stash. */
  type Homes = map<nat, Option<nat>>

  /** The stash holds the blocks that are at home there, once each. */
  ghost predicate StashOk(stash: seq<Block>, contents: map<nat, Data>, homes: Homes) {
    && (forall b <- stash :: b.Block?)
    && Single(stash) && Genuine(stash, contents)
    && (forall i <- homes :: homes[i] == None <==> i in Ids(stash))
    && Ids(stash) <= homes.Keys
  }

  /** Every bucket but the stale ones holds the blocks that are at home there, once each, on their ways. */
  ghost predicate TreeOk(n: nat, storage: seq<seq<Block>>, stale: set<nat>, pos: seq<nat>,
                         contents: map<nat, Data>, homes: Homes) {
    && (forall k :: 0 <= k < |storage| && k !in stale ==> BucketOk(n, storage[k], k, pos, contents, homes))
    && (forall i <- homes :: homes[i].Some? ==> homes[i].value < |storage| && homes[i].value !in stale)
  }

  ghost predicate BucketOk(n: nat, bucket: seq<Block>, k: nat, pos: seq<nat>, contents: map<nat, Data>, homes: Homes) {
    && Single(bucket) && Genuine(bucket, contents)
    && (forall i <- homes :: homes[i] == Some(k) <==> i in Ids(bucket))
    && Ids(bucket) <= homes.Keys
    && (forall i <- Ids(bucket) :: i < |pos| && OnWay(n, pos[i], k))
  }

  ghost function Moved(homes: Homes, ids: set<nat>, to: Option<nat>): Homes {
    map i | i in homes :: if i in ids then to else homes[i]
  }

  lemma OtherBucket(n: nat, bucket: seq<Block>, k: nat, pos: seq<nat>, contents: map<nat, Data>, homes: Homes,
                    ids: set<nat>, to: Option<nat>)
    requires BucketOk(n, bucket, k, pos, contents, homes)
    requires forall i <- ids :: i in homes ==> homes[i] != Some(k)
    requires to != Some(k)
    ensures BucketOk(n, bucket, k, pos, contents, Moved(homes, ids, to))
  {
  }

  /** Reading a bucket into the stash. */
  lemma ReadOk(n: nat, stash: seq<Block>, storage: seq<seq<Block>>, stale: set<nat>, pos: seq<nat>,
               contents: map<nat, Data>, homes: Homes, k: nat)
    requires StashOk(stash, contents, homes) && TreeOk(n, storage, stale, pos, contents, homes)
    requires k < |storage| && k !in stale
    ensures var homes' := Moved(homes, Ids(storage[k]), None);
            && StashOk(stash + Real(storage[k]), contents, homes')
            && TreeOk(n, storage, stale + {k}, pos, contents, homes')
            && Ids(stash + Real(storage[k])) == Ids(stash) + Ids(storage[k])
  {
    var ids := Ids(storage[k]);
    var homes' := Moved(homes, ids, None);
    assert BucketOk(n, storage[k], k, pos, contents, homes);
    RealBlocks(storage[k]);
    RealIds(storage[k]);
    IdsConcat(stash, Real(storage[k]));
    assert Ids(stash) !! ids;
    assert StashOk(stash + Real(storage[k]), contents, homes') by {
      hide Ids, Single, OnWay;
      assert forall b <- stash + Real(storage[k]) :: b in stash || b in Real(storage[k]);
    }
    forall m | 0 <= m < |storage| && m !in stale + {k}
      ensures BucketOk(n, storage[m], m, pos, contents, homes')
    {
      hide Ids, Single, Genuine, OnWay;
      assert BucketOk(n, storage[m], m, pos, contents, homes);
      assert forall i <- ids :: i in homes ==> homes[i] == Some(k);
      OtherBucket(n, storage[m], m, pos, contents, homes, ids, None);
    }
    hide BucketOk, StashOk, Ids;
  }

  /** Writing blocks from the stash into a stale bucket. */
  lemma WriteOk(n: nat, stash: seq<Block>, stash': seq<Block>, storage: seq<seq<Block>>, stale: set<nat>,
                pos: seq<nat>, contents: map<nat, Data>, homes: Homes, k: nat, bucket: seq<Block>)
    requires StashOk(stash, contents, homes) && TreeOk(n, storage, stale, pos, contents, homes)
    requires k < |storage| && k in stale
    requires Single(bucket) && Genuine(bucket, contents) && Ids(bucket) <= Ids(stash)
    requires forall i <- Ids(bucket) :: i < |pos| && OnWay(n, pos[i], k)
    requires Single(stash') && Ids(stash') == Ids(stash) - Ids(bucket)
    requires forall b <- stash' :: b in stash
    ensures var homes' := Moved(homes, Ids(bucket), Some(k));
            && StashOk(stash', contents, homes')
            && TreeOk(n, storage[k := bucket], stale - {k}, pos, contents, homes')
  {
    var homes' := Moved(homes, Ids(bucket), Some(k));
    hide Ids, Single, OnWay;
    assert StashOk(stash', contents, homes');
    assert BucketOk(n, bucket, k, pos, contents, homes') by {
      assert forall i <- homes :: homes[i] != Some(k);
    }
    forall m | 0 <= m < |storage| && m !in stale - {k} && m != k
      ensures BucketOk(n, storage[m], m, pos, contents, homes')
    {
      OtherBucket(n, storage[m], m, pos, contents, homes, Ids(bucket), Some(k));
    }
    hide BucketOk, StashOk;
  }

  /** A block in the stash can get a new leaf, and its data can change. */
  lemma RemapOk(n: nat, stash: seq<Block>, storage: seq<seq<Block>>, stale: set<nat>, pos: seq<nat>,
                contents: map<nat, Data>, homes: Homes, i: nat, leaf: nat)
    requires TreeOk(n, storage, stale, pos, contents, homes)
    requires i < |pos| && (i in homes ==> homes[i] == None)
    ensures TreeOk(n, storage, stale, pos[i := leaf], contents, homes)
  {
    hide Ids, Single, Genuine, OnWay;
    forall k | 0 <= k < |storage| && k !in stale
      ensures BucketOk(n, storage[k], k, pos[i := leaf], contents, homes)
    {
      assert BucketOk(n, storage[k], k, pos, contents, homes);
    }
    hide BucketOk;
  }

  lemma RewriteOk(n: nat, storage: seq<seq<Block>>, stale: set<nat>, pos: seq<nat>,
                  contents: map<nat, Data>, homes: Homes, i: nat, data: Data)
    requires TreeOk(n, storage, stale, pos, contents, homes)
    requires i in homes ==> homes[i] == None
    ensures TreeOk(n, storage, stale, pos, contents[i := data], homes[i := None])
  {
    forall k | 0 <= k < |storage| && k !in stale
      ensures BucketOk(n, storage[k], k, pos, contents[i := data], homes[i := None])
    {
      assert BucketOk(n, storage[k], k, pos, contents, homes);
      hide Single, OnWay;
      assert i !in Ids(storage[k]);
      forall b | b in storage[k] && b.Block?
        ensures b.index != i
      {
        assert b.index in Ids(storage[k]);
      }
    }
    hide BucketOk;
  }

  lemma AppendOk(stash: seq<Block>, contents: map<nat, Data>, homes: Homes, b: Block)
    requires StashOk(stash, contents, homes) && b.Block? && b.index !in homes
    ensures StashOk(stash + [b], contents[b.index := b.data], homes[b.index := None])
    ensures Ids(stash + [b]) == Ids(stash) + {b.index}
  {
    IdsConcat(stash, [b]);
    assert Ids([b]) == {b.index};
    hide Single;
    forall x | x in stash
      ensures x.index in Ids(stash)
    {
    }
    hide Ids;
  }

  lemma ReplaceOk(stash: seq<Block>, contents: map<nat, Data>, homes: Homes, t: nat, data: Data)
    requires StashOk(stash, contents, homes) && t < |stash|
    ensures var b := stash[t];
            && b.Block? && b.index in contents && homes[b.index] == None
            && Ids(stash[t := b.(data := data)]) == Ids(stash)
            && StashOk(stash[t := b.(data := data)], contents[b.index := data], homes[b.index := None])
  {
    var b := stash[t];
    assert b in stash && b.index in Ids(stash);
    var b' := b.(data := data);
    var stash' := stash[t := b'];
    assert stash'[t] == b' && b' in stash';
    forall x | x in stash'
      ensures x == b' || (x in stash && x.Block? && x.index != b.index)
    {
      var j :| 0 <= j < |stash'| && stash'[j] == x;
    }
    forall x | x in stash
      ensures x == b || x in stash'
    {
      var j :| 0 <= j < |stash| && stash[j] == x;
      assert j != t ==> stash'[j] == x;
    }
    assert Ids(stash') == Ids(stash);
    assert homes[b.index := None] == homes;
    hide Ids;
  }

  // ---------------------------------------------------------------- a path

  /** The buckets of the first levels of a path. */
  ghost function Way(n: nat, leaf: nat, k: nat): set<nat> {
    set l | 0 <= l < k && k <= n :: P(n, leaf, l)
  }

  lemma WayNone(n: nat, leaf: nat)
    ensures Way(n, leaf, 0) == {}
  {
  }

  lemma WayNext(n: nat, leaf: nat, i: nat)
    requires i < n && leaf < Pow2(n - 1)
    ensures Way(n, leaf, i + 1) == Way(n, leaf, i) + {P(n, leaf, i)}
    ensures P(n, leaf, i) !in Way(n, leaf, i)
  {
    if l :| 0 <= l < i && P(n, leaf, l) == P(n, leaf, i) {
      SameLevel(n, leaf, leaf, l, i);
    }
    hide P;
  }

  /** The blocks in the first buckets of a path. */
  ghost function PathIds(n: nat, storage: seq<seq<Block>>, leaf: nat, k: nat): set<nat> {
    if k == 0 || k > n then {}
    else PathIds(n, storage, leaf, k - 1)
         + if P(n, leaf, k - 1) < |storage| then Ids(storage[P(n, leaf, k - 1)]) else {}
  }

  lemma PathIdsNext(n: nat, storage: seq<seq<Block>>, leaf: nat, i: nat)
    requires i < n
    ensures PathIds(n, storage, leaf, 0) == {}
    ensures P(n, leaf, i) < |storage| ==>
              PathIds(n, storage, leaf, i + 1) == PathIds(n, storage, leaf, i) + Ids(storage[P(n, leaf, i)])
  {
  }

  /** When the path of a block was read, the block is in the stash if it is anywhere. */
  lemma FoundInStash(n: nat, storage: seq<seq<Block>>, leaf: nat, pos: seq<nat>, contents: map<nat, Data>,
                     homes: Homes, i: nat)
    requires TreeOk(n, storage, Way(n, leaf, n), pos, contents, homes)
    requires i < |pos| && pos[i] == leaf
    ensures i in homes ==> homes[i] == None
  {
    hide Ids, Single, Genuine, P;
  }

  // ---------------------------------------------------------------- lists of blocks

  lemma StashParts(stash: seq<Block>, contents: map<nat, Data>, homes: Homes)
    requires StashOk(stash, contents, homes)
    ensures Single(stash) && Genuine(stash, contents)
    ensures forall b <- stash :: b.Block? && b.index in homes
    ensures Ids(stash) <= homes.Keys && |Ids(stash)| == |stash|
    ensures forall i <- homes :: homes[i] == None <==> i in Ids(stash)
  {
    SingleSize(stash);
    hide Single, Genuine;
    assert forall b <- stash :: b.index in Ids(stash);
  }

  lemma StashData(stash: seq<Block>, contents: map<nat, Data>, t: nat)
    requires Genuine(stash, contents) && t < |stash| && stash[t].Block?
    ensures stash[t].index in contents && stash[t].data == contents[stash[t].index]
  {
    assert stash[t] in stash;
  }

  lemma GenuinePart(blocks: seq<Block>, part: seq<Block>, contents: map<nat, Data>)
    requires Genuine(blocks, contents) && forall b <- part :: b in blocks
    ensures Genuine(part, contents)
  {
  }

  lemma PadBucket(bucket: seq<Block>, contents: map<nat, Data>)
    requires Single(bucket) && Genuine(bucket, contents)
    ensures Single(bucket + [Dummy]) && Genuine(bucket + [Dummy], contents)
    ensures Ids(bucket + [Dummy]) == Ids(bucket)
  {
    IdsConcat(bucket, [Dummy]);
    assert Ids([Dummy]) == {};
  }

  lemma EraseAt(stash: seq<Block>, j: nat)
    requires Single(stash) && (forall b <- stash :: b.Block?) && j < |stash|
    ensures var rest := stash[..j] + stash[j + 1..];
            Single(rest) && (forall b <- rest :: b in stash) && Ids(rest) == Ids(stash) - {stash[j].index}
  {
    var before, after := stash[..j], stash[j + 1..];
    var rest := before + after;
    assert stash == before + [stash[j]] + after;
    EraseSingle(stash, j);
    IdsConcat(before, [stash[j]]);
    IdsConcat(before + [stash[j]], after);
    IdsConcat(before, after);
    assert Ids([stash[j]]) == {stash[j].index};
    assert stash[j].index !in Ids(rest);
    hide Single, Ids;
    forall b | b in rest
      ensures b in stash
    {
      assert b in before || b in after;
    }
  }

  lemma EraseSingle(stash: seq<Block>, j: nat)
    requires Single(stash) && (forall b <- stash :: b.Block?) && j < |stash|
    ensures var rest := stash[..j] + stash[j + 1..];
            Single(rest) && forall b <- rest :: b.index != stash[j].index
  {
    var rest := stash[..j] + stash[j + 1..];
    assert forall a :: 0 <= a < |rest| ==> rest[a] == stash[if a < j then a else a + 1];
  }

  lemma EvictedIds(bucket: seq<Block>, evicted: seq<nat>)
    requires |bucket| == |evicted| && forall b <- bucket :: b.Block?
    requires forall j :: 0 <= j < |bucket| ==> evicted[j] == bucket[j].index
    ensures Elements(evicted) == Ids(bucket)
  {
    forall i | i in Ids(bucket)
      ensures i in evicted
    {
      var j :| 0 <= j < |bucket| && bucket[j].index == i;
      assert evicted[j] == i;
    }
    forall i | i in evicted
      ensures i in Ids(bucket)
    {
      var j :| 0 <= j < |evicted| && evicted[j] == i;
      assert bucket[j] in bucket;
    }
  }
}

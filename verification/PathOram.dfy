/** Path ORAM with eviction of the path that was read. */
module PathOrams {

  import opened Common
  import opened Bits
  import opened PathOramTree
  import opened PathOramGreedy

  datatype Operation = READ | WRITE

  /** A block added to a bucket that is full is dropped. */
  function AddBlock(bucket: seq<Block>, size: nat, b: Block): seq<Block> {
    if |bucket| < size then bucket + [b] else bucket
  }

  class PathOram {
    const bucketSize: nat
    const numBlocks: nat
    const numLevels: nat
    const positionMap: array<nat>
    const storage: array<seq<Block>>
    var stash: seq<Block>
    /** The blocks that were written, and where each of them is. */
    ghost var contents: map<nat, Data>
    ghost var homes: Homes

    function NumLeaves(): nat
      requires numLevels > 0
    {
      Pow2(numLevels - 1)
    }

    ghost predicate Shaped()
      reads this, positionMap, storage
    {
      && numLevels > 0
      && positionMap.Length == numBlocks
      && storage.Length == Pow2(numLevels) - 1
      && (forall i :: 0 <= i < numBlocks ==> positionMap[i] < NumLeaves())
      && (forall k :: 0 <= k < storage.Length ==> |storage[k]| == bucketSize)
      && contents.Keys == homes.Keys
      && (forall i <- homes :: i < numBlocks)
    }

    /** Everything holds, but for the buckets in `stale`, with the blocks placed by `pos`. */
    ghost predicate Holds(stale: set<nat>, pos: seq<nat>)
      reads this, storage
    {
      && StashOk(stash, contents, homes)
      && TreeOk(numLevels, storage[..], stale, pos, contents, homes)
    }

    ghost predicate Valid()
      reads this, positionMap, storage
    {
      Shaped() && Holds({}, positionMap[..])
    }

    /** All buckets are full of dummies; `leaves` are the random positions of the blocks. */
    constructor (bucketSize: nat, numBlocks: nat, numLevels: nat, leaves: seq<nat>)
      requires numLevels > 0 && (Pow2(numLevels) - 1) * bucketSize >= numBlocks
      requires |leaves| == numBlocks && forall i :: 0 <= i < numBlocks ==> leaves[i] < Pow2(numLevels - 1)
      ensures Valid() && fresh(positionMap) && fresh(storage)
      ensures this.bucketSize == bucketSize && this.numBlocks == numBlocks && this.numLevels == numLevels
      ensures contents == map[] && stash == []
    {
      this.bucketSize, this.numBlocks, this.numLevels := bucketSize, numBlocks, numLevels;
      stash, contents, homes := [], map[], map[];
      positionMap := new nat[numBlocks](i requires 0 <= i < numBlocks => leaves[i]);
      storage := new seq<Block>[Pow2(numLevels) - 1](_ => seq(bucketSize, _ => Dummy));
      new;
      forall k | 0 <= k < storage.Length
        ensures BucketOk(numLevels, storage[..][k], k, positionMap[..], contents, homes)
      {
        assert Ids(storage[k]) == {};
      }
    }

    // -------------------------------------------------------------- reading

    /** Puts the blocks of a bucket that are not dummies into the stash. */
    method PushBlocks(blocks: seq<Block>)
      modifies this`stash
      ensures stash == old(stash) + Real(blocks)
    {
      var j := 0;
      assert blocks[..0] == [];
      while j < |blocks|
        invariant 0 <= j <= |blocks|
        invariant stash == old(stash) + Real(blocks[..j])
      {
        assert blocks[..j + 1][..j] == blocks[..j];
        if blocks[j] != Dummy {
          stash := stash + [blocks[j]];
        }
        j := j + 1;
      }
      assert blocks[..j] == blocks;
    }

    /** Reads the path to a leaf into the stash. */
    method ReadPath(leaf: nat, ghost pos: seq<nat>)
      requires Shaped() && Holds({}, pos) && leaf < NumLeaves()
      modifies this`stash, this`homes
      ensures Shaped() && Holds(Way(numLevels, leaf, numLevels), pos)
      ensures Ids(stash) == old(Ids(stash)) + PathIds(numLevels, storage[..], leaf, numLevels)
    {
      hide StashOk, TreeOk, Way, Ids, PathIds;
      WayNone(numLevels, leaf);
      PathIdsNext(numLevels, storage[..], leaf, 0);
      var i := 0;
      while i < numLevels
        invariant 0 <= i <= numLevels
        invariant Shaped() && Holds(Way(numLevels, leaf, i), pos)
        invariant Ids(stash) == old(Ids(stash)) + PathIds(numLevels, storage[..], leaf, i)
      {
        PathBucket(numLevels, leaf, i);
        WayNext(numLevels, leaf, i);
        PathIdsNext(numLevels, storage[..], leaf, i);
        var k := P(numLevels, leaf, i);
        ReadOk(numLevels, stash, storage[..], Way(numLevels, leaf, i), pos, contents, homes, k);
        PushBlocks(storage[k]);
        homes := Moved(homes, Ids(storage[k]), None);
        i := i + 1;
      }
    }

    // -------------------------------------------------------------- evicting

    /** Erases the first block of an index from the stash. */
    method Erase(index: nat)
      requires Single(stash) && forall b <- stash :: b.Block?
      modifies this`stash
      ensures Single(stash) && (forall b <- stash :: b in old(stash))
      ensures Ids(stash) == old(Ids(stash)) - {index}
    {
      var j := 0;
      while j < |stash|
        invariant 0 <= j <= |stash| && stash == old(stash)
        invariant forall m :: 0 <= m < j ==> stash[m].index != index
      {
        if stash[j].index == index {
          EraseAt(stash, j);
          stash := stash[..j] + stash[j + 1..];
          return;
        }
        j := j + 1;
      }
      assert index !in Ids(stash);
    }

    /** Chooses blocks from the stash, in its order, for the bucket of a leaf's path at a level. */
    method Choose(leaf: nat, level: nat) returns (bucket: seq<Block>, evicted: seq<nat>)
      requires Shaped() && level < numLevels && leaf < NumLeaves()
      requires StashOk(stash, contents, homes)
      ensures |bucket| == |evicted| <= bucketSize && Single(bucket)
      ensures forall b <- bucket :: b.Block? && b in stash
      ensures forall j :: 0 <= j < |bucket| ==> evicted[j] == bucket[j].index
      ensures Takes(numLevels, bucketSize, positionMap[..], leaf, Ids(stash), level, Ids(bucket))
    {
      hide Pow2, P, Genuine, Single, Ids;
      StashParts(stash, contents, homes);
      bucket, evicted := [], [];
      var pxl := P(numLevels, leaf, level);
      ChosenNone(numLevels, positionMap[..], pxl, level, stash);
      var j := 0;
      ghost var pos := positionMap[..];
      while j < |stash|
        invariant 0 <= j <= |stash| && |evicted| == |bucket| <= bucketSize
        invariant Chosen(numLevels, pos, pxl, level, stash[..j], bucket)
        invariant forall m :: 0 <= m < |bucket| ==> evicted[m] == bucket[m].index
      {
        if |bucket| >= bucketSize {
          break;
        }
        var b := stash[j];
        assert b in stash;
        PathBucket(numLevels, positionMap[b.index], level);
        ChosenNext(numLevels, pos, pxl, level, stash, j, bucket);
        if pxl == P(numLevels, positionMap[b.index], level) {
          bucket := AddBlock(bucket, bucketSize, b);
          evicted := evicted + [b.index];
        }
        j := j + 1;
      }
      ChosenDeep(numLevels, bucketSize, pos, leaf, level, stash, j, bucket);
    }

    /** Takes the blocks for a bucket out of the stash, and fills the bucket up with dummies. */
    method TakeBucket(leaf: nat, level: nat) returns (bucket: seq<Block>)
      requires Shaped() && level < numLevels && leaf < NumLeaves()
      requires StashOk(stash, contents, homes)
      modifies this`stash
      ensures |bucket| == bucketSize && Single(bucket) && Genuine(bucket, contents)
      ensures Takes(numLevels, bucketSize, positionMap[..], leaf, old(Ids(stash)), level, Ids(bucket))
      ensures Single(stash) && Ids(stash) == old(Ids(stash)) - Ids(bucket)
      ensures forall b <- stash :: b in old(stash)
    {
      hide Pow2, P, Takes, Ids, Single, Genuine;
      StashParts(stash, contents, homes);
      var evicted;
      bucket, evicted := Choose(leaf, level);
      GenuinePart(stash, bucket, contents);
      var i := 0;
      assert Elements(evicted[..0]) == {};
      while i < |evicted|
        invariant 0 <= i <= |evicted|
        invariant Single(stash) && (forall b <- stash :: b in old(stash) && b.Block?)
        invariant Ids(stash) == old(Ids(stash)) - Elements(evicted[..i])
      {
        Erase(evicted[i]);
        PrefixElements(evicted, i);
        i := i + 1;
      }
      assert evicted[..i] == evicted;
      EvictedIds(bucket, evicted);
      ghost var chosen, left := bucket, stash;
      while |bucket| < bucketSize
        invariant stash == left
        invariant |chosen| <= |bucket| <= bucketSize
        invariant Single(bucket) && Genuine(bucket, contents) && Ids(bucket) == Ids(chosen)
      {
        PadBucket(bucket, contents);
        bucket := AddBlock(bucket, bucketSize, Dummy);
      }
    }

    /** The path was written back from level l down; `at` says where the blocks were placed. */
    ghost predicate WrittenFrom(leaf: nat, l: nat, ids: set<nat>, at: map<nat, nat>)
      requires numLevels > 0
      reads this, positionMap, storage
    {
      && Holds(Way(numLevels, leaf, l), positionMap[..])
      && Evicted(numLevels, bucketSize, positionMap[..], leaf, ids, Ids(stash), l)
      && PlacedFrom(numLevels, bucketSize, positionMap[..], leaf, ids, Ids(stash), at, l)
    }

    /** Writes the bucket of a path at one level. */
    method WriteLevel(leaf: nat, l: nat, ghost ids: set<nat>, ghost at: map<nat, nat>)
      requires Shaped() && leaf < NumLeaves() && l < numLevels
      requires WrittenFrom(leaf, l + 1, ids, at)
      modifies this`stash, this`homes, storage
      ensures Shaped()
      ensures exists at' :: WrittenFrom(leaf, l, ids, at')
    {
      hide StashOk, TreeOk, Way, Ids, Evicted, Takes, P, Single, Genuine, PlacedFrom, Place, Pow2;
      PathBucket(numLevels, leaf, l);
      WayNext(numLevels, leaf, l);
      ghost var pos, stash0, storage0 := positionMap[..], stash, storage[..];
      ghost var pxl := P(numLevels, leaf, l);
      StashParts(stash, contents, homes);
      var bucket := TakeBucket(leaf, l);
      TakesInside(numLevels, bucketSize, pos, leaf, Ids(stash0), l, Ids(bucket));
      WriteOk(numLevels, stash0, stash, storage0, Way(numLevels, leaf, l + 1), pos, contents, homes, pxl, bucket);
      EvictLevel(numLevels, bucketSize, pos, leaf, ids, Ids(stash0), l, Ids(bucket));
      PlacedNext(numLevels, bucketSize, pos, leaf, ids, Ids(stash0), at, l, Ids(bucket));
      homes := Moved(homes, Ids(bucket), Some(pxl));
      storage[P(numLevels, leaf, l)] := bucket;
      assert storage[..] == storage0[pxl := bucket];
      assert WrittenFrom(leaf, l, ids, Place(at, Ids(bucket), l));
    }

    /** Writes the path to a leaf back, from the leaf up.  No legal placement of the blocks on the path
        leaves fewer blocks in the stash than the one that is made. */
    method Evict(leaf: nat)
      requires Shaped() && Holds(Way(numLevels, leaf, numLevels), positionMap[..]) && leaf < NumLeaves()
      modifies this`stash, this`homes, storage
      ensures Valid()
      ensures Optimal(leaf, old(Ids(stash)))
    {
      hide StashOk, TreeOk, Way, Ids, Evicted, Least, PlacedFrom, Legal;
      ghost var ids := Ids(stash);
      StashParts(stash, contents, homes);
      EvictStart(numLevels, bucketSize, positionMap[..], leaf, ids);
      PlacedNone(numLevels, bucketSize, positionMap[..], leaf, ids);
      assert WrittenFrom(leaf, numLevels, ids, map[]);
      ghost var at: map<nat, nat> := map[];
      var l := numLevels;
      while l > 0
        invariant 0 <= l <= numLevels
        invariant Shaped() && WrittenFrom(leaf, l, ids, at)
      {
        l := l - 1;
        WriteLevel(leaf, l, ids, at);
        at :| WrittenFrom(leaf, l, ids, at);
      }
      WayNone(numLevels, leaf);
      StashParts(stash, contents, homes);
      PlacedInside(numLevels, bucketSize, positionMap[..], leaf, ids, Ids(stash), at, 0);
      EvictEnd(numLevels, bucketSize, positionMap[..], leaf, ids, Ids(stash));
    }

    // -------------------------------------------------------------- access

    /** Finds the first block of an index in the stash. */
    method Find(index: nat) returns (found: bool, target: nat)
      requires forall b <- stash :: b.Block?
      ensures found <==> index in Ids(stash)
      ensures found ==> target < |stash| && stash[target].index == index
    {
      found, target := false, 0;
      var i := 0;
      while i < |stash|
        invariant 0 <= i <= |stash|
        invariant forall m :: 0 <= m < i ==> stash[m].index != index
      {
        if stash[i].index == index {
          assert stash[i] in stash;
          return true, i;
        }
        i := i + 1;
      }
    }

    /** Gives the block in the stash new data, or puts a new block there. */
    method Update(blockIndex: nat, newData: Data, found: bool, target: nat, ghost stale: set<nat>)
      requires Shaped() && Holds(stale, positionMap[..]) && blockIndex < numBlocks
      requires blockIndex in homes ==> homes[blockIndex] == None
      requires found <==> blockIndex in Ids(stash)
      requires found ==> target < |stash| && stash[target].Block? && stash[target].index == blockIndex
      modifies this`stash, this`homes, this`contents
      ensures Shaped() && Holds(stale, positionMap[..])
      ensures contents == old(contents)[blockIndex := newData]
      ensures Ids(stash) == old(Ids(stash)) + {blockIndex}
    {
      hide StashOk, TreeOk, Ids, Single, Genuine;
      RewriteOk(numLevels, storage[..], stale, positionMap[..], contents, homes, blockIndex, newData);
      StashParts(stash, contents, homes);
      if !found {
        var newBlock := Block(positionMap[blockIndex], blockIndex, newData);
        AppendOk(stash, contents, homes, newBlock);
        stash := stash + [newBlock];
      } else {
        ReplaceOk(stash, contents, homes, target, newData);
        stash := stash[target := stash[target].(data := newData)];
      }
      contents := contents[blockIndex := newData];
      homes := homes[blockIndex := None];
    }

    /** Reads or writes a block; `draw` is its new random leaf.  Reading gives what was written last, or
        nothing; writing gives nothing of use. */
    method Access(op: Operation, blockIndex: nat, newData: Data, draw: nat) returns (data: Option<Data>)
      requires Valid() && blockIndex < numBlocks && draw < NumLeaves()
      modifies this`stash, this`homes, this`contents, positionMap, storage
      ensures Valid()
      ensures contents == if op == WRITE then old(contents)[blockIndex := newData] else old(contents)
      ensures op == READ ==>
                data == if blockIndex in old(contents) then Some(old(contents)[blockIndex]) else None
      ensures positionMap[..] == old(positionMap[..])[blockIndex := draw]
      ensures Optimal(old(positionMap[blockIndex]),
                      old(Ids(stash) + PathIds(numLevels, storage[..], positionMap[blockIndex], numLevels))
                      + if op == WRITE then {blockIndex} else {})
    {
      hide StashOk, TreeOk, Way, Ids, PathIds, Least, Legal, Pow2, Single, Genuine;
      var oldLeaf := positionMap[blockIndex];
      ghost var pos := positionMap[..];
      positionMap[blockIndex] := draw;
      assert positionMap[..] == pos[blockIndex := draw];
      ReadPath(oldLeaf, pos);
      ghost var stale := Way(numLevels, oldLeaf, numLevels);
      FoundInStash(numLevels, storage[..], oldLeaf, pos, contents, homes, blockIndex);
      RemapOk(numLevels, stash, storage[..], stale, pos, contents, homes, blockIndex, draw);
      StashParts(stash, contents, homes);
      var found, target := Find(blockIndex);
      data := None;
      if op == WRITE {
        Update(blockIndex, newData, found, target, stale);
      } else if found {
        StashData(stash, contents, target);
        data := Some(stash[target].data);
      }
      Evict(oldLeaf);
    }

    /** The blocks with these indices were placed on the path to a leaf, or left in the stash, and no
        way to place them that respects their paths and the size of the buckets leaves fewer. */
    ghost predicate Optimal(leaf: nat, ids: set<nat>)
      reads this, positionMap
    {
      && Least(numLevels, bucketSize, positionMap[..], leaf, ids, |stash|)
      && exists at :: Legal(numLevels, bucketSize, positionMap[..], leaf, ids, at) && at.Keys == ids - Ids(stash)
    }
  }
}

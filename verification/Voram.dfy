/** The vORAM: blobs of any size in a tree of encrypted buckets of one size. */
module Vorams {

  import opened Common
  import opened Bits
  import opened Positions
  import opened VoramCodec
  import opened VoramTree
  import opened VoramPaths
  import opened VoramSteps
  import opened VoramBuild
  import opened VoramGrow
  import BlobMap

  class Voram {
    const format: Format
    /** The number of levels below the root. */
    var levels: nat
    /** Blobs, or their first parts, that are in no bucket. */
    var stash: Stash
    /** Blobs that were fetched or created and not written back. */
    var cache: map<Ident, Bytes>
    /** The positions that were read and not written back. */
    var writeBuffer: set<nat>
    /** The keys of the root and of the children of the positions that were read. */
    var nodeKeys: map<nat, Key>
    /** The cell of position p is store[p - 1]. */
    var store: seq<Cell>
    /** What is in the stored buckets that were not read. */
    ghost var tree: Tree
    /** The blobs. */
    ghost var contents: map<Ident, Bytes>
    /** The idents whose paths were read: batches that were written back, and the current batch
        with the number of levels at the time of each. */
    ghost var rounds: seq<seq<Ident>>
    ghost var open: seq<Ident>
    ghost var depths: seq<nat>
    /** What was asked of the vORAM. */
    ghost var calls: seq<BlobMap.Call<Bytes>>
    /** The random keys, in the order in which they are drawn, and how many were drawn. */
    const randomKeys: nat -> Key
    var drawn: nat
    /** The largest number of keys held at any time. */
    ghost var peak: nat

    /** The number of bits of an ident. */
    function Width(): nat {
      8 * format.idLen
    }

    /** The first position beyond the tree. */
    function Bound(): nat
      reads this
    {
      Pow2(levels + 1)
    }

    ghost function Abs(): BlobMap.Store<Bytes>
      reads this
    {
      BlobMap.Store(contents, cache.Keys, rounds, open, calls)
    }

    /** What holds even while the tree is being built or grown. */
    ghost predicate Sound()
      reads this
    {
      Consistent(format, levels, store, tree, nodeKeys, stash, cache, contents) && KeyStream()
    }

    /** All keys that are drawn have the length of a key. */
    ghost predicate KeyStream() {
      forall i: nat :: |randomKeys(i)| == format.keyLen
    }

    /** The positions that were read, upward closed, are all that the tree lacks, and their keys are
        the ones that are held. */
    ghost predicate Complete()
      reads this
    {
      && Covers(tree, writeBuffer, Bound())
      && KeysOf(nodeKeys.Keys, writeBuffer)
    }

    /** The positions that were read are those of the paths of the current batch. */
    ghost predicate Traced()
      reads this
    {
      TracedBy(Width(), levels, open, depths, writeBuffer)
    }

    ghost predicate Valid()
      reads this
    {
      Sound() && Complete() && Traced()
    }

    /** All buckets are written, empty, from the last leaf to the first, each inner bucket as soon as
        its children are. */
    constructor (levels: nat, nodeSize: nat, keyLen: nat, idLen: nat, randomKeys: nat -> Key)
      requires levels < 8 * idLen && forall i: nat :: |randomKeys(i)| == keyLen
      requires nodeSize >= 2 * keyLen + 2
      requires Format(nodeSize, keyLen, idLen, LengthBytes(nodeSize - 2 * keyLen - 2)).Valid()
      ensures Valid() && fresh(this)
      ensures this.levels == levels && format.z == nodeSize && format.keyLen == keyLen && format.idLen == idLen
      ensures format.Valid()
      ensures Abs() == BlobMap.Empty()
      ensures nodeKeys.Keys == {1}
      ensures peak <= levels + 1
    {
      hide Consistent, Covers, KeysOf, TracedBy, Filled, KeysTop, Count, PopCount, Format.Valid;
      format := Format(nodeSize, keyLen, idLen, LengthBytes(nodeSize - 2 * keyLen - 2));
      this.levels := levels;
      this.randomKeys, drawn := randomKeys, 0;
      stash, cache, writeBuffer, nodeKeys := map[], map[], {}, map[];
      store := seq(Pow2(levels + 1) - 1, _ => Raw(Zeros(nodeSize)));
      tree, contents, rounds, open, depths, calls, peak := map[], map[], [], [], [], [], 0;
      new;
      BuildStart(format, levels, store, tree, nodeKeys, stash, cache, contents);
      Build();
      KeysRoot(nodeKeys.Keys);
      TracedNone(Width(), levels, depths);
    }

    /** Writes all buckets, from the last leaf to the first. */
    method Build()
      requires Sound() && Untouched()
      requires Filled(tree.Keys, levels, Bound(), 0) && KeysTop(nodeKeys.Keys, tree.Keys)
      requires Count(nodeKeys.Keys) == PopCount(0) && peak <= levels + 1
      modifies this`stash, this`nodeKeys, this`writeBuffer, this`tree, this`store, this`drawn, this`peak
      ensures Sound() && Untouched() && Complete()
      ensures peak <= levels + 1
    {
      hide Consistent, KeyStream, Covers, KeysOf, Filled, KeysTop, PopCount, Count;
      var pos := Bound();
      Pow2Monotone(levels, levels + 1);
      while pos > Pow2(levels)
        invariant Pow2(levels) <= pos <= Bound()
        invariant Sound() && Untouched()
        invariant Filled(tree.Keys, levels, pos, 0) && KeysTop(nodeKeys.Keys, tree.Keys)
        invariant Count(nodeKeys.Keys) == PopCount(Bound() - pos)
        invariant peak <= levels + 1
      {
        pos := pos - 1;
        WriteUpFrom(pos);
      }
      FilledAll(tree, levels, nodeKeys.Keys);
    }

    /** Writes the parent of p, the last child that it lacked. */
    method WriteParent(pos: nat, p: nat, ghost j: nat)
      requires Sound() && Untouched()
      requires Climbing(levels, pos, p, j) && p in tree && p % 2 == 0
      requires Filled(tree.Keys, levels, pos, p / 2) && KeysTop(nodeKeys.Keys, tree.Keys)
      requires Count(nodeKeys.Keys) == PopCount(Leaves(levels, p, j) - 1) + 1 <= levels + 1
      requires PopCount(Leaves(levels, p, j)) == PopCount(Bound() - pos)
      requires peak <= levels + 1
      modifies this`stash, this`nodeKeys, this`writeBuffer, this`tree, this`store, this`drawn, this`peak
      ensures Sound() && Untouched()
      ensures Climbing(levels, pos, p / 2, j + 1) && p / 2 in tree
      ensures Filled(tree.Keys, levels, pos, p / 4) && KeysTop(nodeKeys.Keys, tree.Keys)
      ensures Count(nodeKeys.Keys) == PopCount(Leaves(levels, p / 2, j + 1) - 1) + 1 <= levels + 1
      ensures PopCount(Leaves(levels, p / 2, j + 1)) == PopCount(Bound() - pos)
      ensures peak <= levels + 1
    {
      hide Consistent, KeyStream, Filled, KeysTop, Uncovered, Shl, Shr, BitLength, PopCount, Count, Leaves, Pow2;
      ClimbNext(levels, pos, p, j);
      FilledInner(tree, levels, pos, p / 2, j + 1, nodeKeys.Keys);
      WriteFirst(p / 2);
    }

    /** Writes a leaf and the inner buckets whose last child it completes; one key more than the
        levels is held at most. */
    method WriteUpFrom(pos: nat)
      requires Sound() && Untouched()
      requires Pow2(levels) <= pos < Bound()
      requires Filled(tree.Keys, levels, pos + 1, 0) && KeysTop(nodeKeys.Keys, tree.Keys)
      requires Count(nodeKeys.Keys) == PopCount(Bound() - pos - 1)
      requires peak <= levels + 1
      modifies this`stash, this`nodeKeys, this`writeBuffer, this`tree, this`store, this`drawn, this`peak
      ensures Sound() && Untouched()
      ensures Filled(tree.Keys, levels, pos, 0) && KeysTop(nodeKeys.Keys, tree.Keys)
      ensures Count(nodeKeys.Keys) == PopCount(Bound() - pos)
      ensures peak <= levels + 1
    {
      hide Consistent, KeyStream, Filled, KeysTop, Uncovered, Shl, Shr, BitLength, PopCount, Count, Leaves;
      CountStart(Bound() - pos, levels);
      FilledLeaf(tree, levels, pos, nodeKeys.Keys);
      WriteFirst(pos);
      var ppos := pos;
      ghost var j := 0;
      ClimbStart(levels, pos);
      while ppos > 0 && ppos % 2 == 0
        invariant Sound() && Untouched()
        invariant Climbing(levels, pos, ppos, j) && ppos in tree
        invariant Filled(tree.Keys, levels, pos, ppos / 2) && KeysTop(nodeKeys.Keys, tree.Keys)
        invariant Count(nodeKeys.Keys) == PopCount(Leaves(levels, ppos, j) - 1) + 1
        invariant PopCount(Leaves(levels, ppos, j)) == PopCount(Bound() - pos)
        invariant peak <= levels + 1 && Count(nodeKeys.Keys) <= levels + 1
      {
        WriteParent(pos, ppos, j);
        ppos := ppos / 2;
        j := j + 1;
      }
      ClimbDone(tree, levels, pos, ppos, j);
    }

    /** Nothing was ever put into this vORAM. */
    ghost predicate Untouched()
      reads this
    {
      && stash == map[] && cache == map[] && contents == map[] && writeBuffer == {}
      && rounds == [] && open == [] && depths == []
    }

    /** Writes a bucket for the first time, keeping count of the keys that are held. */
    method WriteFirst(pos: nat)
      requires Sound() && Untouched()
      requires 0 < pos < Bound() && Uncovered(tree, pos)
      requires BitLength(pos) == levels + 1 || {2 * pos, 2 * pos + 1} <= nodeKeys.Keys
      modifies this`stash, this`nodeKeys, this`writeBuffer, this`tree, this`store, this`drawn, this`peak
      ensures Sound() && Untouched()
      ensures tree.Keys == old(tree).Keys + {pos}
      ensures nodeKeys.Keys == old(nodeKeys).Keys - {2 * pos, 2 * pos + 1} + {pos}
      ensures peak == Most(old(peak), nodeKeys.Keys)
    {
      hide Consistent, KeyStream, Uncovered, Moved, Greedy, BitLength, Most;
      ghost var stash0, tree0 := stash, tree;
      ghost var b := WriteNode(pos, true);
      MovedNone(Width(), stash0, stash, b.chunks, pos);
      assert tree.Keys == tree0.Keys + {pos};
      peak := Most(peak, nodeKeys.Keys);
    }

    // -------------------------------------------------------------- buckets

    /** The stash idents from `start` on, and below `stop` if there is one. */
    method KeysRange(start: nat, stop: Option<nat>) returns (ids: seq<Ident>)
      ensures forall id :: id in ids <==> id in stash && InRange(id, start, stop)
      ensures forall i, j :: 0 <= i < j < |ids| ==> ids[i] != ids[j]
    {
      ids := [];
      var rest := stash.Keys;
      ghost var seen: set<Ident> := {};
      while rest != {}
        invariant rest !! seen && rest + seen == stash.Keys
        invariant forall id <- ids :: id in seen
        invariant forall id <- seen :: id in ids <==> InRange(id, start, stop)
        invariant forall i, j :: 0 <= i < j < |ids| ==> ids[i] != ids[j]
        decreases |rest|
      {
        var id: Ident :| id in rest;
        assert id !in ids;
        ghost var ids0 := ids;
        if InRange(id, start, stop) {
          ids := ids + [id];
        }
        assert forall x :: x in ids <==> x in ids0 || (x == id && InRange(id, start, stop));
        rest, seen := rest - {id}, seen + {id};
      }
    }

    /** The stash idents that can be stored in a position. */
    method StashEligible(pos: nat) returns (ids: seq<Ident>)
      requires 0 < pos && BitLength(pos) <= Width()
      requires forall id <- stash :: IsIdent(Width(), id)
      ensures forall id :: id in ids <==> id in stash && OnPath(Width(), id, pos)
      ensures forall i, j :: 0 <= i < j < |ids| ==> ids[i] != ids[j]
    {
      hide OnPath, IsIdent, Shl;
      var level := BitLength(pos);
      var shift := Width() - level;
      var stop := if BitLength(pos + 1) == level then Some(Shl(pos + 1, shift)) else None;
      ids := KeysRange(Shl(pos, shift), stop);
      forall id | id in stash
        ensures InRange(id, Shl(pos, shift), stop) <==> OnPath(Width(), id, pos)
      {
        Eligible(Width(), id, pos);
      }
    }

    /** Reads the chunks of a decrypted bucket into the stash. */
    method ReadChunks(raw: Bytes)
      requires format.idLen > 0
      modifies this`stash
      ensures stash == Absorb(old(stash), format.Parse(raw))
    {
      hide Number, Read, Absorb, Format.Parse, Format.Front, Zeros;
      var at := 0;
      assert raw[0..] == raw;
      while true
        invariant 0 <= at <= |raw|
        invariant Absorb(stash, format.Parse(raw[at..])) == Absorb(old(stash), format.Parse(raw))
        decreases |raw| - at
      {
        var ident := Read(raw, at, format.idLen);
        ReadLength(raw, at, format.idLen);
        if |ident| < format.idLen || ident == Zeros(format.idLen) {
          ParseEnd(format, raw, at);
          AbsorbNone(stash);
          break;
        }
        ParseNext(format, raw, at);
        ghost var c := format.Front(raw[at..]);
        ghost var before := stash;
        at := at + format.idLen;
        var id := Number(ident);
        if id !in stash {
          stash := stash[id := []];
        }
        var length := Read(raw, at, format.lenLen);
        ReadLength(raw, at, format.lenLen);
        at := at + |length|;
        var data := Read(raw, at, Number(length));
        ReadLength(raw, at, Number(length));
        at := at + |data|;
        stash := stash[id := stash[id] + data];
        AbsorbFront(before, c, format.Parse(raw[at..]));
      }
    }

    /** Reads one bucket, whose parent was read, into the stash. */
    method ReadNode(pos: nat)
      requires Sound()
      requires if pos in writeBuffer then pos !in tree else pos in tree && Uncovered(tree - {pos}, pos)
      modifies this`stash, this`nodeKeys, this`writeBuffer, this`tree
      ensures Sound()
      ensures writeBuffer == old(writeBuffer) + {pos}
      ensures tree == old(tree) - {pos}
      ensures nodeKeys.Keys == old(nodeKeys).Keys + if pos in old(writeBuffer) then {} else {2 * pos, 2 * pos + 1}
    {
      hide Consistent, KeyStream, LinkedAt, Uncovered, Decrypt, Read, Absorb, Format.Parse;
      if pos in writeBuffer {
        return;
      }
      ReadConsistent(format, levels, store, tree, nodeKeys, stash, cache, contents, pos);
      ReadBucket(format, store, tree, nodeKeys, pos);
      var raw := Decrypt(nodeKeys[pos], store[pos - 1]);
      nodeKeys := nodeKeys[2 * pos := Read(raw, 0, format.keyLen)];
      nodeKeys := nodeKeys[2 * pos + 1 := Read(raw, format.keyLen, format.keyLen)];
      ReadChunks(raw[2 * format.keyLen..]);
      writeBuffer := writeBuffer + {pos};
      tree := tree - {pos};
    }

    /** Moves as much of the eligible blobs as there is room for, from the end of each, into the body
        of a bucket. */
    method Pack(pos: nat, room: nat) returns (body: Bytes, remaining: nat, ghost chunks: seq<Chunk>)
      requires format.Valid() && 2 * format.keyLen + room == format.z
      requires 0 < pos && BitLength(pos) <= Width()
      requires forall id <- stash :: IsIdent(Width(), id)
      modifies this`stash
      ensures body == format.Encode(chunks) && |body| + remaining == room
      ensures forall c <- chunks :: format.IsChunk(c)
      ensures Moved(Width(), old(stash), stash, chunks, pos)
      ensures remaining <= format.Header() || forall id <- stash :: !OnPath(Width(), id, pos)
    {
      hide Packed, OnPath, Format.Valid, Format.IsChunk, IsIdent, Format.Encode, Format.EncodeOne, Piece, Part, Named,
        Taken;
      var ids := StashEligible(pos);
      body, remaining, chunks := [], room, [];
      var toDelete: set<Ident> := {};
      PackedNone(stash);
      TakenNone(format, ids, remaining <= format.Header());
      var i := 0;
      while i < |ids|
        invariant 0 <= i == |chunks| <= |ids|
        invariant Packed(old(stash), stash, chunks, toDelete)
        invariant Taken(format, chunks, ids, toDelete, remaining <= format.Header())
        invariant body == format.Encode(chunks) && |body| + remaining == room
      {
        if remaining <= format.Header() {
          break;
        }
        var ident := ids[i];
        PackedKeys(old(stash), stash, chunks, toDelete);
        NotNamed(format, chunks, ids, toDelete, false);
        ghost var gone := toDelete;
        var data := stash[ident];
        body := body + Digits(ident, format.idLen);
        remaining := remaining - format.idLen;
        var writeLen := if remaining - format.lenLen < |data| then remaining - format.lenLen else |data|;
        body := body + Digits(writeLen, format.lenLen);
        remaining := remaining - format.lenLen;
        body := body + data[|data| - writeLen..];
        remaining := remaining - writeLen;
        ghost var c := Chunk(ident, data[|data| - writeLen..]);
        ChunkFits(format, c);
        EncodeNext(format, chunks, c);
        PackOne(old(stash), stash, chunks, toDelete, ident, |data| - writeLen);
        if |data| == writeLen {
          assert data[0..] == data;
          toDelete := toDelete + {ident};
        } else {
          stash := stash[ident := data[..|data| - writeLen]];
        }
        TakenNext(format, chunks, ids, gone, toDelete, c, remaining <= format.Header());
        chunks := chunks + [c];
        i := i + 1;
      }
      PackedAll(old(stash), stash, chunks, toDelete);
      PackedKeys(old(stash), stash, chunks, toDelete);
      stash := stash - toDelete;
      TakenAll(format, chunks, ids, toDelete, remaining <= format.Header());
    }

    /** The next random key, which is never drawn again. */
    method RandomKey() returns (key: Key)
      requires KeyStream()
      modifies this`drawn
      ensures drawn == old(drawn) + 1 && key == randomKeys(old(drawn)) && |key| == format.keyLen
    {
      key := randomKeys(drawn);
      drawn := drawn + 1;
    }

    /** The key of a child moves into its parent; only below the leaves one is made up. */
    method TakeChildKey(pos: nat, child: nat) returns (key: Key)
      requires (forall p <- nodeKeys :: |nodeKeys[p]| == format.keyLen) && KeyStream()
      requires child in nodeKeys || BitLength(pos) == levels + 1
      modifies this`nodeKeys, this`drawn
      ensures nodeKeys == old(nodeKeys) - {child} && drawn >= old(drawn)
      ensures |key| == format.keyLen
      ensures child in old(nodeKeys) ==> key == old(nodeKeys)[child]
    {
      if child in nodeKeys {
        key := nodeKeys[child];
        nodeKeys := nodeKeys - {child};
      } else {
        assert BitLength(pos) == levels + 1;
        key := RandomKey();
        assert nodeKeys == nodeKeys - {child};
      }
    }

    /** The image of a bucket: the keys of its children and what fits from the stash. */
    method BuildNode(pos: nat) returns (node: Bytes, ghost b: Bucket)
      requires Sound() && 0 < pos < Bound()
      requires BitLength(pos) == levels + 1 || {2 * pos, 2 * pos + 1} <= nodeKeys.Keys
      modifies this`stash, this`nodeKeys, this`drawn
      ensures nodeKeys == old(nodeKeys) - {2 * pos, 2 * pos + 1} && drawn >= old(drawn)
      ensures 2 * pos in old(nodeKeys) ==> b.key0 == old(nodeKeys)[2 * pos]
      ensures 2 * pos + 1 in old(nodeKeys) ==> b.key1 == old(nodeKeys)[2 * pos + 1]
      ensures format.IsBucket(b) && node == format.Image(b)
      ensures Moved(Width(), old(stash), stash, b.chunks, pos)
      ensures Greedy(format, stash, b, pos)
    {
      WriteReady(format, levels, store, tree, nodeKeys, stash, cache, contents, pos);
      hide Consistent, KeyStream, Moved, IsIdent, OnPath, Format.IsChunk, Format.Encode, Pow2, BitLength;
      var key0 := TakeChildKey(pos, 2 * pos);
      var key1 := TakeChildKey(pos, 2 * pos + 1);
      var body, remaining, chunks := Pack(pos, format.z - 2 * format.keyLen);
      node := key0 + key1 + body + Zeros(remaining);
      b := Bucket(key0, key1, chunks);
      WriteFull(format, b);
    }

    /** Writes one bucket back, under a new key, filled from the stash. */
    method WriteNode(pos: nat, unread: bool) returns (ghost b: Bucket)
      requires Sound()
      requires unread || pos in writeBuffer
      requires 0 < pos < Bound() && Uncovered(tree, pos)
      requires BitLength(pos) == levels + 1 || {2 * pos, 2 * pos + 1} <= nodeKeys.Keys
      modifies this`stash, this`nodeKeys, this`writeBuffer, this`tree, this`store, this`drawn
      ensures Sound()
      ensures writeBuffer == old(writeBuffer) - {pos}
      ensures drawn > old(drawn) && nodeKeys == (old(nodeKeys) - {2 * pos, 2 * pos + 1})[pos := randomKeys(drawn - 1)]
      ensures store == old(store)[pos - 1 := Box(randomKeys(drawn - 1), format.Image(b))]
      ensures 2 * pos in old(nodeKeys) ==> b.key0 == old(nodeKeys)[2 * pos]
      ensures 2 * pos + 1 in old(nodeKeys) ==> b.key1 == old(nodeKeys)[2 * pos + 1]
      ensures Wrote(format, pos, b, old(stash), stash, old(tree), tree, old(nodeKeys).Keys, nodeKeys.Keys)
    {
      hide Consistent, Moved, Uncovered, IsIdent, KeyStream, Greedy, Wrote, Format.Valid, Format.Image, Format.IsBucket,
        BitLength, Pow2;
      StoreReaches(format, levels, store, tree, nodeKeys, stash, cache, contents, pos);
      ghost var keys0, stash0, store0, tree0 := nodeKeys, stash, store, tree;
      var node;
      node, b := BuildNode(pos);
      var key := RandomKey();
      nodeKeys := nodeKeys[pos := key];
      store := store[pos - 1 := Box(key, node)];
      writeBuffer := writeBuffer - {pos};
      tree := tree[pos := b];
      WriteEffect(format, pos, b, stash0, stash, tree0, tree, keys0, nodeKeys, key);
      WriteConsistent(format, levels, store0, store, tree0, tree, keys0, nodeKeys, stash0, stash,
                      cache, contents, pos, b, store[pos - 1]);
    }

    // -------------------------------------------------------------- paths

    /** Reads all buckets on the path of a reference. */
    method ReadPath(ref: Ref)
      requires Valid() && ref.oram == this && ref.Named()
      modifies this`stash, this`nodeKeys, this`writeBuffer, this`tree, this`open, this`depths
      ensures Valid()
      ensures open == old(open) + [ref.Ident()]
      ensures forall k :: 0 <= k < Width() ==> PosAt(Width(), ref.Ident(), k) !in tree
    {
      hide Consistent, KeyStream, Covers, KeysOf, TracedBy, PosAt, IsIdent, Elements;
      CachedKnown(format, levels, store, tree, nodeKeys, stash, cache, contents);
      var path := ref.Path();
      ghost var read0 := writeBuffer;
      ElementsNone(read0, path);
      var k := 0;
      while k < |path|
        invariant 0 <= k <= |path|
        invariant Sound() && Complete()
        invariant writeBuffer == read0 + Elements(path[..k])
        invariant open == old(open) && depths == old(depths)
      {
        PathFrom(Width(), ref.Ident(), k, levels);
        ElementsParent(read0, path, k);
        ReadStep(tree, writeBuffer, nodeKeys.Keys, Bound(), path[k]);
        ReadNode(path[k]);
        k := k + 1;
      }
      assert path[..k] == path;
      TracedNext(Width(), levels, open, depths, read0, ref.Ident(), path);
      open, depths := open + [ref.Ident()], depths + [levels];
      PathOut(tree, writeBuffer, Width(), levels, ref.Ident(), path);
    }

    // -------------------------------------------------------------- operations

    /** Moves a blob whose path was read from the stash to the cache, under its next ident. */
    method Rename(id: Ident, next: Ident)
      requires Sound() && id in stash && id !in cache && next !in contents
      requires IsIdent(Width(), id) && IsIdent(Width(), next)
      requires forall k :: 0 <= k < Width() ==> PosAt(Width(), id, k) !in tree
      modifies this`stash, this`cache, this`contents
      ensures Sound()
      ensures old(id in contents) && contents == old((contents - {id})[next := contents[id]])
      ensures cache == old(cache[next := contents[id]])
    {
      hide Consistent, KeyStream, PosAt, IsIdent;
      FetchConsistent(format, levels, store, tree, nodeKeys, stash, cache, contents, id, next);
      var data := stash[id];
      stash := stash - {id};
      cache := cache[next := data];
      contents := (contents - {id})[next := contents[id]];
    }

    /** Reads the blob of a reference into the cache and renames it; KeyError is `false`. */
    method Fetch(ref: Ref, draw: nat) returns (found: bool)
      requires Valid() && ref.oram == this && ref.Named() && draw < Pow2(Width())
      requires ref.Next(draw) !in contents && IsIdent(Width(), ref.Next(draw))
      modifies this`stash, this`cache, this`nodeKeys, this`writeBuffer, this`tree, this`contents, this`open,
        this`depths, this`calls, ref`id, ref`nextref
      ensures Valid() && ref.Named()
      ensures found <==> old(ref.Ident() in contents)
      ensures found ==> Abs() == old(Abs().Fetch(ref.Ident(), ref.Next(draw)))
      ensures found && old(ref.Ident() !in cache) ==> ref.Ident() == old(ref.Next(draw)) && ref.nextref == None
      ensures !found ==> Abs() == old(Abs().DummyOp(ref.Ident()))
      ensures !found || old(ref.Ident() in cache) ==> unchanged(ref)
      ensures found ==> ref.Ident() in cache && cache[ref.Ident()] == old(contents[ref.Ident()])
    {
      hide Consistent, KeyStream, Covers, KeysOf, TracedBy, PosAt, IsIdent, BlobMap.Store.Fetch, BlobMap.Store.DummyOp;
      var id := ref.Ident();
      CachedKnown(format, levels, store, tree, nodeKeys, stash, cache, contents);
      if id in cache {
        FetchCached(Abs(), id, ref.Next(draw));
        return true;
      }
      ghost var next := ref.Next(draw);
      ReadPath(ref);
      FetchConsistent(format, levels, store, tree, nodeKeys, stash, cache, contents, id, next);
      if id !in stash {
        DummyAbs(old(contents), old(cache), rounds, old(open), calls, id);
        calls := calls + [BlobMap.DummyCall(id)];
        return false;
      }
      FetchAbs(old(contents), old(cache), rounds, old(open), calls, id, next, contents[id]);
      ref.Regen(draw);
      Rename(id, ref.Ident());
      calls := calls + [BlobMap.FetchCall(id, next)];
      found := true;
    }

    /** Writes back all buckets that were read, from the leaves up. */
    method WriteBack()
      requires Sound() && Complete()
      modifies this`stash, this`nodeKeys, this`writeBuffer, this`tree, this`store, this`drawn
      ensures Sound() && Complete()
      ensures writeBuffer == {}
      ensures Settled(format, stash, tree, old(writeBuffer))
    {
      hide Consistent, KeyStream, Covers, KeysOf, Settled, Wrote, Uncovered;
      ghost var all := writeBuffer;
      var todo := writeBuffer;
      SettledNone(format, stash, tree, all, todo);
      while todo != {}
        invariant todo == writeBuffer <= all
        invariant Sound() && Complete()
        invariant forall q <- all - todo, p <- todo :: p < q
        invariant Settled(format, stash, tree, all - todo)
        decreases |todo|
      {
        MaxExists(todo);
        var pos :| pos in todo && forall q <- todo :: q <= pos;
        ghost var stash0, tree0, keys0 := stash, tree, nodeKeys.Keys;
        WriteStep(tree, writeBuffer, nodeKeys.Keys, Bound(), pos);
        ghost var b := WriteNode(pos, false);
        WroteStep(format, pos, b, stash0, stash, tree0, tree, keys0, nodeKeys.Keys, todo, Bound());
        SettledNext(format, pos, b, stash0, stash, tree0, tree, keys0, nodeKeys.Keys, all - todo);
        assert all - todo + {pos} == all - (todo - {pos});
        todo := todo - {pos};
      }
      assert all - todo == all;
    }

    /** Puts the cache back into the stash and writes back what was read. */
    method Settle()
      requires Sound() && Complete()
      modifies this`stash, this`cache, this`nodeKeys, this`writeBuffer, this`tree, this`store, this`drawn
      ensures Sound() && Complete() && levels < Width()
      ensures cache == map[] && writeBuffer == {} && nodeKeys.Keys == {1}
      ensures Settled(format, stash, tree, old(writeBuffer))
    {
      hide Consistent, KeyStream, Covers, KeysOf, Settled;
      FlushConsistent(format, levels, store, tree, nodeKeys, stash, cache, contents);
      CachedKnown(format, levels, store, tree, nodeKeys, stash, cache, contents);
      stash := stash + cache;
      cache := map[];
      WriteBack();
      KeysRoot(nodeKeys.Keys);
    }

    /** Ends what is being worked on: the cache is emptied and all buckets are written back. */
    method Finalize()
      requires Valid()
      modifies this`stash, this`cache, this`nodeKeys, this`writeBuffer, this`tree, this`store, this`drawn, this`rounds,
        this`open, this`depths, this`calls
      ensures Valid()
      ensures Abs() == old(Abs().Finalize())
      ensures cache == map[] && writeBuffer == {} && nodeKeys.Keys == {1}
      ensures forall q <- old(writeBuffer), id | OnPath(Width(), id, q) ::
                (id in stash || exists p <- old(writeBuffer) :: p < q && p in tree && Named(tree[p].chunks, id)) ==>
                  q in tree && 2 * format.keyLen + |format.Encode(tree[q].chunks)| + format.Header() >= format.z
    {
      hide Consistent, KeyStream, Covers, KeysOf, TracedBy, Settled, OnPath, Named, Format.Encode,
        BlobMap.Store.Finalize;
      FinalizeAbs(contents, cache.Keys, rounds, open, calls);
      TracedEmpty(Width(), levels, open, depths, writeBuffer);
      Settle();
      SettledMeans(format, stash, tree, old(writeBuffer));
      if open != [] {
        rounds, open, depths := rounds + [open], [], [];
      }
      calls := calls + [BlobMap.FinalizeCall];
      TracedNone(Width(), levels, depths);
    }

    /** Creates an empty blob, after reading a random path if `read` is set. */
    method Create(read: bool, ident: Option<Ident>, immediate: bool, draw: nat, draw': nat) returns (ref: Ref)
      requires Valid() && draw < Pow2(Width()) && draw' < Pow2(Width())
      requires Width() > 0
      requires var id := if !read then NewIdent(Width(), draw)
                         else if ident.Some? then ident.value else NewIdent(Width(), draw');
               IsIdent(Width(), id) && id !in contents
      modifies this`stash, this`cache, this`nodeKeys, this`writeBuffer, this`tree, this`contents, this`open,
        this`depths, this`calls
      ensures Valid() && fresh(ref)
      ensures ref.oram == this && ref.immediate == immediate
      ensures ref.Named()
      ensures !read ==> ref.Ident() == NewIdent(Width(), draw)
      ensures read && ident.Some? ==> ref.Ident() == ident.value
      ensures read && ident.None? ==> ref.Ident() == NewIdent(Width(), draw')
      ensures ref.nextref == if read then None else ident
      ensures Abs() == if read then old(Abs()).CreateRead(NewIdent(Width(), draw), ref.Ident(), [])
                       else old(Abs()).Create(ref.Ident(), [])
    {
      hide Consistent, KeyStream, Covers, KeysOf, TracedBy, PosAt, IsIdent, BlobMap.Store.CreateRead,
        BlobMap.Store.Create;
      NewIdentIs(Width(), draw);
      ref := new Ref(this, None, immediate, ident, draw);
      if read {
        ReadPath(ref);
        ref.Regen(draw');
      }
      CacheConsistent(format, levels, store, tree, nodeKeys, stash, cache, contents, ref.Ident(), []);
      CreateAbs(contents, cache, rounds, old(open), calls, NewIdent(Width(), draw), ref.Ident());
      cache := cache[ref.Ident() := []];
      contents := contents[ref.Ident() := []];
      calls := calls + if read then [BlobMap.CreateReadCall(NewIdent(Width(), draw), ref.Ident(), [])]
                       else [BlobMap.CreateCall(ref.Ident(), [])];
    }

    /** Does nothing, but looks like any other access. */
    method DummyOp(sync: bool, draw: nat)
      requires Valid() && draw < Pow2(Width()) && Width() > 0
      modifies this`stash, this`cache, this`nodeKeys, this`writeBuffer, this`tree, this`store, this`drawn, this`rounds,
        this`open, this`depths, this`calls
      ensures Valid()
      ensures Abs() == if sync then old(Abs()).DummyOp(NewIdent(Width(), draw)).Finalize()
                       else old(Abs()).DummyOp(NewIdent(Width(), draw))
    {
      hide Consistent, KeyStream, Covers, KeysOf, TracedBy, PosAt, IsIdent;
      NewIdentIs(Width(), draw);
      var ref := new Ref(this, None, false, None, draw);
      ReadPath(ref);
      calls := calls + [BlobMap.DummyCall(ref.Ident())];
      if sync {
        Finalize();
      }
    }

    method Get(ident: Ident) returns (data: Option<Bytes>)
      requires Valid()
      ensures data == if ident in cache then Some(contents[ident]) else None
    {
      data := if ident in cache then Some(cache[ident]) else None;
    }

    method Set(ident: Ident, data: Bytes) returns (ok: bool)
      requires Valid()
      modifies this`cache, this`contents, this`calls
      ensures Valid() && ok == (ident in old(cache))
      ensures Abs() == if ok then old(Abs()).Set(ident, data) else old(Abs())
    {
      hide Consistent, KeyStream, Covers, KeysOf, TracedBy, IsIdent;
      if ident !in cache {
        return false;
      }
      CacheConsistent(format, levels, store, tree, nodeKeys, stash, cache, contents, ident, data);
      CacheKeys(cache, ident, data);
      cache := cache[ident := data];
      contents := contents[ident := data];
      calls := calls + [BlobMap.SetCall(ident, data)];
      ok := true;
    }

    method Remove(ident: Ident) returns (ok: bool)
      requires Valid()
      modifies this`cache, this`contents, this`calls
      ensures Valid() && ok == (ident in old(cache))
      ensures Abs() == if ok then old(Abs()).Remove(ident) else old(Abs())
    {
      hide Consistent, KeyStream, Covers, KeysOf, TracedBy, IsIdent;
      if ident !in cache {
        return false;
      }
      CacheConsistent(format, levels, store, tree, nodeKeys, stash, cache, contents, ident, []);
      CacheKeys(cache, ident, []);
      cache := cache - {ident};
      contents := contents - {ident};
      calls := calls + [BlobMap.RemoveCall(ident)];
      ok := true;
    }

    // -------------------------------------------------------------- growing

    /** Doubles the storage by adding a level of leaves. */
    method Grow()
      requires Valid() && levels + 1 < Width()
      modifies this`levels, this`store, this`drawn, this`stash, this`nodeKeys, this`writeBuffer, this`tree
      ensures Valid() && levels == old(levels) + 1
      ensures writeBuffer == old(writeBuffer)
      ensures Abs() == old(Abs())
    {
      hide Consistent, KeyStream, Covers, KeysOf, TracedBy, Grown, Shr;
      var curBuffer := writeBuffer;
      var nLeaves := Pow2(levels + 1);
      var more := seq(nLeaves, _ => Raw(Zeros(format.z)));
      GrowConsistent(format, levels, store, tree, nodeKeys, stash, cache, contents, more);
      GrowStart(tree, curBuffer, nodeKeys.Keys, levels + 1);
      TracedGrow(Width(), levels, open, depths, writeBuffer);
      CoversClosed(tree, curBuffer, Bound());
      levels := levels + 1;
      store := store + more;
      var depth := levels;
      var toRead := seq(depth, i requires 0 <= i < depth => Pow2(depth - 1 - i));
      forall i | 0 <= i < depth
        ensures toRead[i] == Shr(nLeaves, i + 1)
      {
        ShrPow2(depth, i + 1);
      }
      WriteLeaves(curBuffer, nLeaves, toRead);
    }

    /** Writes the new leaves one after the other, with what is above each of them read. */
    method WriteLeaves(curBuffer: set<nat>, nLeaves: nat, first: seq<nat>)
      requires Sound() && nLeaves == Pow2(levels) && levels > 0 && |first| == levels
      requires Grown(tree, curBuffer, writeBuffer, nodeKeys.Keys, levels, nLeaves, levels, nLeaves)
      requires forall i :: 0 <= i < levels ==> first[i] == Shr(nLeaves, i + 1)
      requires forall p <- curBuffer :: p > 1 ==> p / 2 in curBuffer
      modifies this`store, this`drawn, this`stash, this`nodeKeys, this`writeBuffer, this`tree
      ensures Sound() && Complete()
      ensures writeBuffer == curBuffer
    {
      hide Consistent, KeyStream, Covers, KeysOf, Grown, Shr;
      var toRead := first;
      var pos := nLeaves;
      while pos < 2 * nLeaves
        invariant nLeaves <= pos <= 2 * nLeaves
        invariant Sound()
        invariant Grown(tree, curBuffer, writeBuffer, nodeKeys.Keys, levels, pos, |toRead|, pos)
        invariant forall i :: 0 <= i < |toRead| ==> toRead[i] == Shr(pos, i + 1)
        invariant pos == 2 * nLeaves ==> |toRead| == levels
      {
        ReadDown(curBuffer, pos, toRead);
        GrowLeaf(tree, curBuffer, writeBuffer, nodeKeys.Keys, levels, pos);
        ghost var tree0, keys0, read0 := tree, nodeKeys.Keys, writeBuffer;
        ghost var b := WriteNode(pos, true);
        assert writeBuffer == read0;
        GrewLeaf(tree0, curBuffer, read0, keys0, levels, pos, b);
        toRead := WriteUp(curBuffer, pos);
        pos := pos + 1;
      }
      GrowEnd(tree, curBuffer, writeBuffer, nodeKeys.Keys, levels, |toRead|, pos);
    }

    /** Reads the positions above a leaf that are not above the leaf before, from the top. */
    method ReadDown(ghost curBuffer: set<nat>, ghost pos: nat, toRead: seq<nat>)
      requires Sound() && Pow2(levels) <= pos < Bound()
      requires Grown(tree, curBuffer, writeBuffer, nodeKeys.Keys, levels, pos, |toRead|, pos)
      requires forall i :: 0 <= i < |toRead| ==> toRead[i] == Shr(pos, i + 1)
      modifies this`stash, this`nodeKeys, this`writeBuffer, this`tree
      ensures Sound()
      ensures Grown(tree, curBuffer, writeBuffer, nodeKeys.Keys, levels, pos, 0, pos)
    {
      hide Consistent, KeyStream, Grown, Shr, Uncovered;
      var k := |toRead|;
      while k > 0
        invariant 0 <= k <= |toRead|
        invariant Sound()
        invariant Grown(tree, curBuffer, writeBuffer, nodeKeys.Keys, levels, pos, k, pos)
      {
        GrowRead(tree, curBuffer, writeBuffer, nodeKeys.Keys, levels, pos, k);
        k := k - 1;
        ReadNode(toRead[k]);
      }
    }

    /** Writes back the positions above a leaf that are not above the next leaf, from the bottom,
        but for those that had been read before; returns those above the next leaf only. */
    method WriteUp(curBuffer: set<nat>, pos: nat) returns (toRead: seq<nat>)
      requires Sound() && Pow2(levels) <= pos < Bound() && levels > 0
      requires Grown(tree, curBuffer, writeBuffer, nodeKeys.Keys, levels, pos, 0, pos + 1)
      modifies this`store, this`drawn, this`stash, this`nodeKeys, this`writeBuffer, this`tree
      ensures Sound()
      ensures Grown(tree, curBuffer, writeBuffer, nodeKeys.Keys, levels, pos + 1, |toRead|, pos + 1)
      ensures forall i :: 0 <= i < |toRead| ==> toRead[i] == Shr(pos + 1, i + 1)
      ensures pos + 1 == Bound() ==> |toRead| == levels
    {
      hide Consistent, KeyStream, Grown, Climbed, Uncovered, Shr;
      toRead := [];
      var ppos: nat := pos + 1;
      ClimbedStart(pos, levels, toRead);
      while ppos > 2 && ppos % 2 == 0
        invariant Sound()
        invariant Climbed(pos, ppos, |toRead|, levels, toRead)
        invariant Grown(tree, curBuffer, writeBuffer, nodeKeys.Keys, levels, pos, |toRead|, pos + 1)
      {
        ghost var j := |toRead|;
        ClimbedNext(pos, ppos, j, levels, toRead);
        GrowUp(tree, curBuffer, writeBuffer, nodeKeys.Keys, levels, pos, j);
        ppos := ppos / 2;
        ClimbedAt(pos, ppos, j + 1, levels, toRead + [ppos]);
        if ppos - 1 !in curBuffer {
          ghost var tree0, keys0, read0 := tree, nodeKeys.Keys, writeBuffer;
          ghost var b := WriteNode(ppos - 1, false);
          GrewUp(tree0, curBuffer, read0, keys0, levels, pos, j, b);
        }
        toRead := toRead + [ppos];
      }
      ClimbedDone(tree, curBuffer, writeBuffer, nodeKeys.Keys, pos, ppos, levels, toRead);
    }
  }

  /** A reference to a blob, by its current ident. */
  class Ref {
    const oram: Voram
    var immediate: bool
    var id: Option<Ident>
    /** The ident that the blob gets when it is fetched next, if already chosen. */
    var nextref: Option<Ident>

    /** Without an ident, the reference gets a new one made of the random bytes `draw`. */
    constructor (oram: Voram, ident: Option<Ident>, immediate: bool, nextref: Option<Ident>, draw: nat)
      requires ident.None? ==> draw < Pow2(oram.Width()) && oram.format.idLen > 0
      ensures this.oram == oram && this.immediate == immediate && this.nextref == nextref
      ensures id == Some(if ident.Some? then ident.value else NewIdent(oram.Width(), draw))
    {
      this.oram := oram;
      this.immediate := immediate;
      this.nextref := nextref;
      this.id := Some(if ident.Some? then ident.value else NewIdent(oram.Width(), draw));
    }

    ghost predicate Named()
      reads this
    {
      id.Some? && IsIdent(oram.Width(), id.value)
    }

    /** The ident that the blob gets when it is fetched next. */
    function Next(draw: nat): Ident
      requires oram.Width() > 0 && draw < Pow2(oram.Width())
      reads this
    {
      if nextref.Some? then nextref.value else NewIdent(oram.Width(), draw)
    }

    /** The ident after the next fetch: a blob that is already cached keeps its ident. */
    ghost function After(draw: nat): Ident
      requires id.Some? && oram.Width() > 0 && draw < Pow2(oram.Width())
      reads this, oram
    {
      if Ident() in oram.cache then Ident() else Next(draw)
    }

    /** Chooses the next ident in advance. */
    method Pregen(draw: nat) returns (next: Ident)
      requires oram.Width() > 0 && draw < Pow2(oram.Width())
      modifies this`nextref
      ensures next == old(Next(draw)) && nextref == Some(next)
    {
      if nextref.None? {
        nextref := Some(NewIdent(oram.Width(), draw));
      }
      next := nextref.value;
    }

    /** Takes the next ident. */
    method Regen(draw: nat)
      requires oram.Width() > 0 && draw < Pow2(oram.Width())
      modifies this`id, this`nextref
      ensures id == Some(old(Next(draw))) && nextref == None
    {
      var next := Pregen(draw);
      id := Some(next);
      nextref := None;
    }

    function Ident(): Ident
      requires id.Some?
      reads this
    {
      id.value
    }

    /** The positions on the way to the leaf, computed from the first bytes of the ident. */
    method Path() returns (path: seq<nat>)
      requires Named() && oram.levels < oram.Width()
      ensures |path| == oram.levels + 1
      ensures forall k :: 0 <= k <= oram.levels ==> path[k] == PosAt(oram.Width(), Ident(), k)
    {
      hide Digits, Number, Shr, Pow2, BitLength, IsIdent, PosAt;
      var len := oram.format.idLen;
      var m := (oram.levels + 8) / 8;
      var idint := Number(Digits(Ident(), len)[..m]);
      PathShift(Ident(), len, m, 0);
      var shift: int := BitLength(idint) - 1;
      path := [];
      for k := 0 to oram.levels + 1
        invariant |path| == k && shift == 8 * m - 1 - k
        invariant forall j :: 0 <= j < k ==> path[j] == PosAt(oram.Width(), Ident(), j)
      {
        PathShift(Ident(), len, m, k);
        path := path + [Shr(idint, shift)];
        shift := shift - 1;
      }
    }

    /** The blob, fetched and renamed, or KeyError. */
    method GetRaw(draw: nat) returns (data: Option<Bytes>)
      requires oram.Valid() && Named() && draw < Pow2(oram.Width())
      requires Next(draw) !in oram.contents && IsIdent(oram.Width(), Next(draw))
      modifies this, oram
      ensures oram.Valid()
      ensures data == if old(Ident() in oram.contents) then Some(old(oram.contents[Ident()])) else None
      ensures data.Some? ==> Named() && Ident() == old(After(draw))
      ensures data.Some? ==> oram.Abs() == Done(immediate, old(oram.Abs().Fetch(Ident(), Next(draw))))
      ensures data.None? ==> oram.Abs() == old(oram.Abs().DummyOp(Ident()))
    {
      hide Voram.Valid, IsIdent;
      var found := oram.Fetch(this, draw);
      if !found {
        return None;
      }
      data := oram.Get(Ident());
      if immediate {
        oram.Finalize();
      }
    }

    /** Replaces the blob; `false` is KeyError. */
    method SetRaw(value: Bytes, draw: nat) returns (ok: bool)
      requires oram.Valid() && Named() && draw < Pow2(oram.Width())
      requires Next(draw) !in oram.contents && IsIdent(oram.Width(), Next(draw))
      modifies this, oram
      ensures oram.Valid() && Named()
      ensures ok == (old(Ident() in oram.contents))
      ensures ok ==> Ident() == old(After(draw))
      ensures ok ==> oram.Abs() == Done(immediate, old(oram.Abs().Fetch(Ident(), Next(draw)).Set(After(draw), value)))
      ensures !ok ==> oram.Abs() == old(oram.Abs().DummyOp(Ident()))
    {
      hide Voram.Valid, IsIdent;
      ok := oram.Fetch(this, draw);
      if ok {
        ok := oram.Set(Ident(), value);
        if immediate {
          oram.Finalize();
        }
      }
    }

    /** Removes the blob, and the reference with it; `false` is KeyError. */
    method Destroy(draw: nat) returns (ok: bool)
      requires oram.Valid() && Named() && draw < Pow2(oram.Width())
      requires Next(draw) !in oram.contents && IsIdent(oram.Width(), Next(draw))
      modifies this, oram
      ensures oram.Valid()
      ensures ok == (old(Ident() in oram.contents))
      ensures ok ==> id == None
      ensures ok ==> oram.Abs() == Done(immediate, old(oram.Abs().Fetch(Ident(), Next(draw)).Remove(After(draw))))
      ensures !ok ==> oram.Abs() == old(oram.Abs().DummyOp(Ident()))
    {
      hide Voram.Valid, IsIdent;
      ok := oram.Fetch(this, draw);
      if ok {
        ok := oram.Remove(Ident());
        if immediate {
          oram.Finalize();
        }
        id := None;
      }
    }
  }

  /** What an operation leaves when it writes back at once, or not. */
  ghost function Done(immediate: bool, st: BlobMap.Store<Bytes>): BlobMap.Store<Bytes> {
    if immediate then st.Finalize() else st
  }
}

/** The state of a vORAM, and what reading or writing one bucket does to it. */
module VoramSteps {

  import opened Common
  import opened Bits
  import opened Positions
  import opened VoramCodec
  import opened VoramTree
  import opened VoramPaths
  import BlobMap

  /** What writing a bucket changes: it is stored, its key is held and its children's keys are
      not, and it took from the stash all that it could. */
  ghost predicate Wrote(f: Format, pos: nat, b: Bucket, stash: Stash, stash': Stash, tree: Tree, tree': Tree,
                        keys: set<nat>, keys': set<nat>) {
    && tree' == tree[pos := b]
    && keys' == keys - {2 * pos, 2 * pos + 1} + {pos}
    && Moved(8 * f.idLen, stash, stash', b.chunks, pos)
    && Greedy(f, stash', b, pos)
  }

  lemma WriteEffect(f: Format, pos: nat, b: Bucket, stash: Stash, stash': Stash, tree: Tree, tree': Tree,
                    keys: map<nat, Key>, keys': map<nat, Key>, key: Key)
    requires tree' == tree[pos := b]
    requires keys' == (keys - {2 * pos, 2 * pos + 1})[pos := key]
    requires Moved(8 * f.idLen, stash, stash', b.chunks, pos)
    requires Greedy(f, stash', b, pos)
    ensures Wrote(f, pos, b, stash, stash', tree, tree', keys.Keys, keys'.Keys)
  {
    hide Moved, Greedy;
  }

  /** The chunks, all of blobs whose paths contain pos, went from the ends of the blobs' parts in
      the stash; a blob left the stash only when it is among them. */
  ghost predicate Moved(n: nat, stash: Stash, stash': Stash, chunks: seq<Chunk>, pos: nat) {
    && (forall id :: Part(stash, id) == Part(stash', id) + Piece(chunks, id))
    && (forall id :: id in stash <==> id in stash' || Named(chunks, id))
    && (forall id | Named(chunks, id) :: OnPath(n, id, pos))
  }

  lemma MovedNone(n: nat, stash: Stash, stash': Stash, chunks: seq<Chunk>, pos: nat)
    requires Moved(n, stash, stash', chunks, pos) && stash == map[]
    ensures stash' == map[]
  {
  }

  /** The bucket took all it could: it is full, or nothing is left that can be stored there. */
  ghost predicate Greedy(f: Format, stash: Stash, b: Bucket, pos: nat) {
    Full(f, b) || forall id <- stash :: !OnPath(8 * f.idLen, id, pos)
  }

  lemma WriteFull(f: Format, b: Bucket)
    requires |b.key0| == |b.key1| == f.keyLen && 2 * f.keyLen + |f.Encode(b.chunks)| <= f.z
    requires forall c <- b.chunks :: f.IsChunk(c)
    ensures f.IsBucket(b)
    ensures f.Image(b) == b.key0 + b.key1 + f.Encode(b.chunks) + Zeros(f.z - 2 * f.keyLen - |f.Encode(b.chunks)|)
    ensures Full(f, b) <==> f.z - 2 * f.keyLen - |f.Encode(b.chunks)| <= f.Header()
  {
  }

  lemma PositionBits(pos: nat, levels: nat)
    requires 0 < pos < Pow2(levels + 1)
    ensures 0 < BitLength(pos) <= levels + 1
  {
    if BitLength(pos) > levels + 1 {
      Pow2Monotone(levels + 1, BitLength(pos) - 1);
    }
  }

  lemma WriteReady(f: Format, levels: nat, store: seq<Cell>, tree: Tree, keys: map<nat, Key>, stash: Stash,
                   cache: map<Ident, Bytes>, contents: map<Ident, Bytes>, pos: nat)
    requires Consistent(f, levels, store, tree, keys, stash, cache, contents)
    requires 0 < pos < Pow2(levels + 1)
    ensures f.Valid() && f.z >= 2 * f.keyLen && pos <= |store| && 0 < BitLength(pos) <= 8 * f.idLen
    ensures forall id <- stash :: IsIdent(8 * f.idLen, id)
    ensures forall p <- keys :: |keys[p]| == f.keyLen
  {
    PositionBits(pos, levels);
    hide Linked;
    assert forall id <- stash :: Present(stash, tree, id);
  }

  lemma UncoveredSelf(tree: Tree, pos: nat)
    requires pos > 0 && Uncovered(tree, pos)
    ensures pos !in tree && pos / 2 !in tree
  {
    assert Shr(pos, 0) !in tree;
    assert Shr(pos, 1) == Shr(pos, 0) / 2;
    assert Shr(pos, 1) !in tree;
  }

  lemma StoreReaches(f: Format, levels: nat, store: seq<Cell>, tree: Tree, keys: map<nat, Key>, stash: Stash,
                     cache: map<Ident, Bytes>, contents: map<Ident, Bytes>, pos: nat)
    requires Consistent(f, levels, store, tree, keys, stash, cache, contents) && 0 < pos < Pow2(levels + 1)
    ensures pos <= |store|
  {
  }

  /** Writing one bucket leaves everything consistent. */
  lemma WriteConsistent(f: Format, levels: nat, store: seq<Cell>, store': seq<Cell>, tree: Tree, tree': Tree,
                        keys: map<nat, Key>, keys': map<nat, Key>, stash: Stash, stash': Stash,
                        cache: map<Ident, Bytes>, contents: map<Ident, Bytes>, pos: nat, b: Bucket, cell: Cell)
    requires Consistent(f, levels, store, tree, keys, stash, cache, contents)
    requires 0 < pos < Pow2(levels + 1) && Uncovered(tree, pos)
    requires f.IsBucket(b) && cell.Box? && cell.plain == f.Image(b) && |cell.key| == f.keyLen
    requires 2 * pos in keys ==> b.key0 == keys[2 * pos]
    requires 2 * pos + 1 in keys ==> b.key1 == keys[2 * pos + 1]
    requires Moved(8 * f.idLen, stash, stash', b.chunks, pos)
    requires pos <= |store| && store' == store[pos - 1 := cell]
    requires tree' == tree[pos := b]
    requires keys' == (keys - {2 * pos, 2 * pos + 1})[pos := cell.key]
    ensures Consistent(f, levels, store', tree', keys', stash', cache, contents)
  {
    hide Format.Image, Format.IsBucket, Uncovered, Holds, Linked, Pow2, Part, Piece, Named, OnPath;
    UncoveredSelf(tree, pos);
    WriteLinked(f, store, tree, keys, pos, b, cell.key);
    LayerHolds(stash, stash', tree, 8 * f.idLen, contents - cache.Keys, pos, b);
  }

  /** The chunks are those of the first idents, in order, and only a full bucket cuts one off. */
  ghost predicate Taken(f: Format, chunks: seq<Chunk>, ids: seq<Ident>, gone: set<Ident>, full: bool) {
    && |chunks| <= |ids|
    && forall j :: 0 <= j < |chunks| ==>
         chunks[j].id == ids[j] && f.IsChunk(chunks[j]) && (full || ids[j] in gone)
  }

  lemma TakenNone(f: Format, ids: seq<Ident>, full: bool)
    ensures Taken(f, [], ids, {}, full) && f.Encode([]) == []
  {
  }

  lemma TakenNext(f: Format, chunks: seq<Chunk>, ids: seq<Ident>, gone: set<Ident>, gone': set<Ident>,
                  c: Chunk, full: bool)
    requires Taken(f, chunks, ids, gone, false) && gone <= gone' && |chunks| < |ids|
    requires c.id == ids[|chunks|] && f.IsChunk(c) && (full || c.id in gone')
    ensures Taken(f, chunks + [c], ids, gone', full)
  {
  }

  lemma NotNamed(f: Format, chunks: seq<Chunk>, ids: seq<Ident>, gone: set<Ident>, full: bool)
    requires Taken(f, chunks, ids, gone, full) && |chunks| < |ids|
    requires forall j, k :: 0 <= j < k < |ids| ==> ids[j] != ids[k]
    ensures !Named(chunks, ids[|chunks|])
  {
  }

  lemma TakenAll(f: Format, chunks: seq<Chunk>, ids: seq<Ident>, gone: set<Ident>, full: bool)
    requires Taken(f, chunks, ids, gone, full)
    ensures forall id | Named(chunks, id) :: id in ids
    ensures forall c <- chunks :: f.IsChunk(c)
    ensures |chunks| == |ids| ==> full || forall id <- ids :: id in gone
  {
  }

  lemma PackedNone(stash: Stash)
    ensures Packed(stash, stash, [], {})
  {
  }

  lemma PackedKeys(stash: Stash, rest: Stash, chunks: seq<Chunk>, gone: set<Ident>)
    requires Packed(stash, rest, chunks, gone)
    ensures rest.Keys == stash.Keys
  {
  }

  lemma PackedAll(stash: Stash, rest: Stash, chunks: seq<Chunk>, gone: set<Ident>)
    requires Packed(stash, rest, chunks, gone)
    ensures forall id :: Part(stash, id) == Part(rest - gone, id) + Piece(chunks, id)
    ensures forall id :: id in stash <==> id in rest - gone || Named(chunks, id)
  {
    hide Packed, Part, Piece, Named;
    forall id
      ensures Part(stash, id) == Part(rest - gone, id) + Piece(chunks, id)
      ensures id in stash <==> id in rest - gone || Named(chunks, id)
    {
      PackedParts(stash, rest, chunks, gone, id);
    }
  }

  lemma ChunkFits(f: Format, c: Chunk)
    requires f.Valid() && IsIdent(8 * f.idLen, c.id) && |c.data| + f.Header() + 2 * f.keyLen <= f.z
    ensures f.IsChunk(c)
  {
    LengthFits(f, |c.data|);
  }

  lemma EncodeNext(f: Format, chunks: seq<Chunk>, c: Chunk)
    ensures f.Encode(chunks + [c])
            == f.Encode(chunks) + Digits(c.id, f.idLen) + Digits(|c.data|, f.lenLen) + c.data
  {
    assert (chunks + [c])[..|chunks|] == chunks;
  }

  /** Up to n bytes. */
  function Read(raw: Bytes, at: nat, n: nat): Bytes
    requires at <= |raw|
  {
    if at + n <= |raw| then raw[at..at + n] else raw[at..]
  }

  /** Decryption gives back what was encrypted under the same key, and nothing under another. */
  function Decrypt(key: Key, cell: Cell): Bytes {
    match cell
    case Raw(bytes) => bytes
    case Box(k, plain) => if k == key then plain else []
  }

  lemma ReadLength(raw: Bytes, at: nat, n: nat)
    requires at <= |raw|
    ensures at + |Read(raw, at, n)| <= |raw|
    ensures |Read(raw, at, n)| <= n
    ensures |Read(raw, at, n)| == n ==> at + n <= |raw| && Read(raw, at, n) == raw[at..at + n]
  {
  }

  lemma AbsorbNone(stash: Stash)
    ensures Absorb(stash, []) == stash
  {
  }

  lemma {:induction false} AbsorbFront(stash: Stash, c: Chunk, rest: seq<Chunk>)
    ensures var there := if c.id in stash then stash else stash[c.id := []];
            Absorb(stash, [c] + rest) == Absorb(there[c.id := there[c.id] + c.data], rest)
    decreases |rest|
  {
    var all := [c] + rest;
    if rest == [] {
      assert all[..0] == [] && all[0] == c;
    } else {
      AbsorbFront(stash, c, rest[..|rest| - 1]);
      assert all[..|all| - 1] == [c] + rest[..|rest| - 1];
      assert all[|all| - 1] == rest[|rest| - 1];
    }
  }

  lemma ParseEnd(f: Format, raw: Bytes, at: nat)
    requires f.idLen > 0 && at <= |raw|
    requires |Read(raw, at, f.idLen)| < f.idLen || Read(raw, at, f.idLen) == Zeros(f.idLen)
    ensures f.Parse(raw[at..]) == []
  {
    if at + f.idLen <= |raw| {
      assert raw[at..][..f.idLen] == raw[at..at + f.idLen];
    }
  }

  lemma ParseNext(f: Format, raw: Bytes, at: nat)
    requires f.idLen > 0 && at + f.idLen <= |raw|
    requires raw[at..at + f.idLen] != Zeros(f.idLen)
    ensures var length := Read(raw, at + f.idLen, f.lenLen);
            var data := Read(raw, at + f.idLen + |length|, Number(length));
            && f.Front(raw[at..]) == Chunk(Number(raw[at..at + f.idLen]), data)
            && f.Parse(raw[at..])
               == [f.Front(raw[at..])] + f.Parse(raw[at + f.idLen + |length| + |data|..])
  {
    hide Number;
    var rest := raw[at..];
    var length := Read(raw, at + f.idLen, f.lenLen);
    var data := Read(raw, at + f.idLen + |length|, Number(length));
    assert rest[..f.idLen] == raw[at..at + f.idLen];
    assert rest[f.idLen..f.LengthEnd(rest)] == length;
    assert rest[f.LengthEnd(rest)..f.FrontEnd(rest)] == data;
    assert rest[f.FrontEnd(rest)..] == raw[at + f.idLen + |length| + |data|..];
  }

  /** What reading a linked bucket finds. */
  lemma ReadBucket(f: Format, store: seq<Cell>, tree: Tree, keys: map<nat, Key>, pos: nat)
    requires pos in tree && LinkedAt(f, store, tree, keys, pos) && pos / 2 !in tree
    ensures pos in keys && 0 < pos <= |store|
    ensures var raw := Decrypt(keys[pos], store[pos - 1]);
            && |raw| == f.z >= 2 * f.keyLen
            && |tree[pos].key0| == |tree[pos].key1| == f.keyLen
            && Read(raw, 0, f.keyLen) == tree[pos].key0
            && Read(raw, f.keyLen, f.keyLen) == tree[pos].key1
            && f.Parse(raw[2 * f.keyLen..]) == tree[pos].chunks
  {
    hide Format.Image, Format.Parse, Format.Encode;
    DecodeImage(f, tree[pos]);
  }

  lemma UncoveredParent(tree: Tree, pos: nat)
    requires pos > 0 && Uncovered(tree - {pos}, pos)
    ensures pos / 2 !in tree
  {
    assert Shr(pos, 1) == Shr(pos, 0) / 2;
    assert Shr(pos, 1) !in tree - {pos};
  }

  /** Reading one bucket leaves everything consistent. */
  lemma ReadConsistent(f: Format, levels: nat, store: seq<Cell>, tree: Tree, keys: map<nat, Key>, stash: Stash,
                       cache: map<Ident, Bytes>, contents: map<Ident, Bytes>, pos: nat)
    requires Consistent(f, levels, store, tree, keys, stash, cache, contents)
    requires pos in tree && Uncovered(tree - {pos}, pos)
    ensures LinkedAt(f, store, tree, keys, pos) && pos / 2 !in tree && f.idLen > 0
    ensures Consistent(f, levels, store, tree - {pos},
                       keys[2 * pos := tree[pos].key0][2 * pos + 1 := tree[pos].key1],
                       Absorb(stash, tree[pos].chunks), cache, contents)
  {
    ReadLinked(f, store, tree, keys, pos);
    UncoveredParent(tree, pos);
    ReadHolds(stash, tree, 8 * f.idLen, contents - cache.Keys, pos);
    ReadBucket(f, store, tree, keys, pos);
    hide Format.Image, Format.Parse, Format.IsBucket, Uncovered, Holds, Linked, Absorb, Pow2, Decrypt, Read;
  }

  lemma ReadHolds(stash: Stash, tree: Tree, n: nat, blobs: map<Ident, Bytes>, pos: nat)
    requires Holds(stash, tree, n, blobs) && pos in tree && Uncovered(tree - {pos}, pos)
    ensures Holds(Absorb(stash, tree[pos].chunks), tree - {pos}, n, blobs)
  {
    var stash' := Absorb(stash, tree[pos].chunks);
    forall id
      ensures Part(stash', id) == Part(stash, id) + Piece(tree[pos].chunks, id)
      ensures id in stash' <==> id in stash || Named(tree[pos].chunks, id)
    {
      AbsorbParts(stash, tree[pos].chunks, id);
    }
    assert (tree - {pos})[pos := tree[pos]] == tree;
    assert forall id | Named(tree[pos].chunks, id) :: OnPath(n, id, pos);
    hide Absorb, Part, Piece, Named, OnPath, Holds, Uncovered;
    LayerHolds(stash', stash, tree - {pos}, n, blobs, pos, tree[pos]);
  }

  predicate InRange(id: Ident, start: nat, stop: Option<nat>) {
    start <= id && (stop.Some? ==> id < stop.value)
  }

  /** The state of a vORAM, whether or not all its buckets have been written. */
  ghost predicate Consistent(f: Format, levels: nat, store: seq<Cell>, tree: Tree, keys: map<nat, Key>, stash: Stash,
                             cache: map<Ident, Bytes>, contents: map<Ident, Bytes>)
  {
    && f.Valid()
    && levels < 8 * f.idLen
    && |store| == Pow2(levels + 1) - 1
    && Linked(f, store, tree, keys)
    && (forall p <- keys :: |keys[p]| == f.keyLen)
    && Holds(stash, tree, 8 * f.idLen, contents - cache.Keys)
    && cache.Keys <= contents.Keys
    && (forall id <- cache :: IsIdent(8 * f.idLen, id) && contents[id] == cache[id])
  }

  /** The tree has the positions below `bound` that are not in `read`, and a position that was read
      has a parent that was read. */
  ghost predicate Covers(tree: Tree, read: set<nat>, bound: nat) {
    && (forall p :: p in tree <==> 0 < p < bound && p !in read)
    && (forall p <- read :: 0 < p < bound && (p > 1 ==> p / 2 in read))
  }

  ghost function PathsRead(n: nat, open: seq<Ident>, depths: seq<nat>): set<nat>
    requires |depths| == |open|
    requires forall i :: 0 <= i < |open| ==> depths[i] < n
  {
    set i, k | 0 <= i < |open| && 0 <= k <= depths[i] :: PosAt(n, open[i], k)
  }

  /** A position whose parent was read can be read. */
  lemma ReadStep(tree: Tree, read: set<nat>, keys: set<nat>, bound: nat, pos: nat)
    requires Covers(tree, read, bound) && KeysOf(keys, read)
    requires 0 < pos < bound && (pos > 1 ==> pos / 2 in read)
    ensures if pos in read then pos !in tree else pos in tree && Uncovered(tree - {pos}, pos)
    ensures Covers(tree - {pos}, read + {pos}, bound)
    ensures KeysOf(keys + if pos in read then {} else {2 * pos, 2 * pos + 1}, read + {pos})
  {
    forall p
      ensures p / 2 == pos <==> p == 2 * pos || p == 2 * pos + 1
    {
    }
    if pos !in read {
      UncoveredChild(tree, bound, pos);
    } else {
      assert tree - {pos} == tree && read + {pos} == read;
    }
  }

  /** The last position that was read can be written. */
  lemma WriteStep(tree: Tree, read: set<nat>, keys: set<nat>, bound: nat, pos: nat)
    requires Covers(tree, read, bound) && KeysOf(keys, read)
    requires pos in read
    ensures 0 < pos < bound && Uncovered(tree, pos)
    ensures {2 * pos, 2 * pos + 1} <= keys
  {
    UncoveredAll(tree, bound, pos);
  }

  lemma WroteStep(f: Format, pos: nat, b: Bucket, stash: Stash, stash': Stash, tree: Tree, tree': Tree,
                  keys: set<nat>, keys': set<nat>, read: set<nat>, bound: nat)
    requires Wrote(f, pos, b, stash, stash', tree, tree', keys, keys')
    requires Covers(tree, read, bound) && KeysOf(keys, read)
    requires pos in read && forall q <- read :: q <= pos
    ensures Covers(tree', read - {pos}, bound)
    ensures KeysOf(keys', read - {pos})
  {
    hide Moved, Greedy;
    forall p
      ensures p / 2 == pos <==> p == 2 * pos || p == 2 * pos + 1
    {
    }
    forall q | q in read - {pos} && q > 1
      ensures q / 2 in read - {pos}
    {
      assert q <= pos;
    }
  }

  lemma MaxExists(s: set<nat>)
    requires s != {}
    ensures exists m :: m in s && forall x <- s :: x <= m
    decreases |s|
  {
    var y :| y in s;
    var rest := s - {y};
    if rest == {} {
      assert forall x <- s :: x == y || x in rest;
    } else {
      MaxExists(rest);
      var m :| m in rest && forall x <- rest :: x <= m;
      var top := if m < y then y else m;
      assert top in s;
      assert forall x <- s :: x in rest || x == y;
    }
  }

  /** The positions that were read are those of the paths of the idents, each down to a depth. */
  ghost predicate TracedBy(n: nat, levels: nat, open: seq<Ident>, depths: seq<nat>, read: set<nat>) {
    && levels < n && |depths| == |open|
    && (forall i :: 0 <= i < |open| ==> IsIdent(n, open[i]) && depths[i] <= levels)
    && read == PathsRead(n, open, depths)
  }

  lemma TracedNext(n: nat, levels: nat, open: seq<Ident>, depths: seq<nat>, read: set<nat>, id: Ident, path: seq<nat>)
    requires TracedBy(n, levels, open, depths, read) && IsIdent(n, id)
    requires |path| == levels + 1 && forall k :: 0 <= k <= levels ==> path[k] == PosAt(n, id, k)
    ensures TracedBy(n, levels, open + [id], depths + [levels], read + Elements(path))
  {
    PathsReadNext(n, open, depths, id, levels);
    hide PathsRead, PosAt, IsIdent;
    assert Elements(path) == set k | 0 <= k <= levels :: PosAt(n, id, k);
  }

  lemma ElementsNone(read: set<nat>, path: seq<nat>)
    ensures read + Elements(path[..0]) == read
  {
  }

  /** The elements before k hold the parent of the next one. */
  lemma ElementsParent(read: set<nat>, path: seq<nat>, k: nat)
    requires k < |path|
    ensures k > 0 ==> path[k - 1] in read + Elements(path[..k])
    ensures read + Elements(path[..k + 1]) == read + Elements(path[..k]) + {path[k]}
  {
    assert path[..k + 1] == path[..k] + [path[k]];
    if k > 0 {
      assert path[..k][k - 1] == path[k - 1];
    }
  }

  lemma TracedEmpty(n: nat, levels: nat, open: seq<Ident>, depths: seq<nat>, read: set<nat>)
    requires TracedBy(n, levels, open, depths, read)
    ensures open == [] <==> read == {}
    ensures |depths| == |open|
  {
    if open != [] {
      assert PosAt(n, open[0], 0) in read by {
        assert 0 <= depths[0];
      }
    }
  }

  lemma PathsReadNext(n: nat, open: seq<Ident>, depths: seq<nat>, id: Ident, depth: nat)
    requires |depths| == |open| && depth < n
    requires forall i :: 0 <= i < |open| ==> depths[i] < n
    ensures PathsRead(n, open + [id], depths + [depth])
            == PathsRead(n, open, depths) + set k | 0 <= k <= depth :: PosAt(n, id, k)
  {
    hide PosAt;
    var open', depths' := open + [id], depths + [depth];
    forall p | p in PathsRead(n, open', depths')
      ensures p in PathsRead(n, open, depths) + set k | 0 <= k <= depth :: PosAt(n, id, k)
    {
      var i, k :| 0 <= i < |open'| && 0 <= k <= depths'[i] && PosAt(n, open'[i], k) == p;
      if i < |open| {
        assert open'[i] == open[i] && depths'[i] == depths[i];
      }
    }
    forall p | p in PathsRead(n, open, depths)
      ensures p in PathsRead(n, open', depths')
    {
      var i, k :| 0 <= i < |open| && 0 <= k <= depths[i] && PosAt(n, open[i], k) == p;
      assert open'[i] == open[i] && depths'[i] == depths[i];
    }
    forall k | 0 <= k <= depth
      ensures PosAt(n, id, k) in PathsRead(n, open', depths')
    {
      assert open'[|open|] == id && depths'[|open|] == depth;
    }
  }

  /** When a path was read down to the last level, none of it is in the tree. */
  lemma PathOut(tree: Tree, read: set<nat>, n: nat, levels: nat, id: Ident, path: seq<nat>)
    requires Covers(tree, read, Pow2(levels + 1)) && IsIdent(n, id) && levels < n
    requires |path| == levels + 1 && forall k :: 0 <= k <= levels ==> path[k] == PosAt(n, id, k)
    requires Elements(path) <= read
    ensures forall k :: 0 <= k < n ==> PosAt(n, id, k) !in tree
  {
    forall k | 0 <= k < n
      ensures PosAt(n, id, k) !in tree
    {
      if k > levels {
        PathBeyond(n, id, k, levels);
      } else {
        assert path[k] in Elements(path);
      }
    }
  }

  /** The ident of n bits made of a random draw: its first bit is set. */
  function NewIdent(n: nat, draw: nat): (id: Ident)
    requires n > 0 && draw < Pow2(n)
    ensures IsIdent(n, id)
    ensures draw >= Pow2(n - 1) ==> id == draw
    ensures draw < Pow2(n - 1) ==> id == draw + Pow2(n - 1)
  {
    if draw < Pow2(n - 1) then draw + Pow2(n - 1) else draw
  }

  // ---------------------------------------------------------------- operations

  lemma CachedKnown(f: Format, levels: nat, store: seq<Cell>, tree: Tree, keys: map<nat, Key>, stash: Stash,
                    cache: map<Ident, Bytes>, contents: map<Ident, Bytes>)
    requires Consistent(f, levels, store, tree, keys, stash, cache, contents)
    ensures f.idLen > 0 && levels < 8 * f.idLen
    ensures forall id <- cache :: id in contents && contents[id] == cache[id]
    ensures forall id <- contents :: IsIdent(8 * f.idLen, id)
  {
    assert forall id <- contents :: id in contents - cache.Keys || id in cache;
  }

  /** Putting the cache back into the stash. */
  lemma FlushConsistent(f: Format, levels: nat, store: seq<Cell>, tree: Tree, keys: map<nat, Key>, stash: Stash,
                        cache: map<Ident, Bytes>, contents: map<Ident, Bytes>)
    requires Consistent(f, levels, store, tree, keys, stash, cache, contents)
    ensures Consistent(f, levels, store, tree, keys, stash + cache, map[], contents)
  {
    hide Linked, Holds;
    PutAll(stash, tree, 8 * f.idLen, contents - cache.Keys, cache);
    assert contents - cache.Keys + cache == contents;
    var none: map<Ident, Bytes> := map[];
    assert contents - none.Keys == contents;
  }

  /** A blob whose path was read goes from the stash to the cache, under a new name. */
  lemma FetchConsistent(f: Format, levels: nat, store: seq<Cell>, tree: Tree, keys: map<nat, Key>, stash: Stash,
                        cache: map<Ident, Bytes>, contents: map<Ident, Bytes>, id: Ident, next: Ident)
    requires Consistent(f, levels, store, tree, keys, stash, cache, contents)
    requires id !in cache && IsIdent(8 * f.idLen, id) && IsIdent(8 * f.idLen, next) && next !in contents
    requires forall k :: 0 <= k < 8 * f.idLen ==> PosAt(8 * f.idLen, id, k) !in tree
    ensures id in stash <==> id in contents
    ensures id in stash ==> stash[id] == contents[id]
    ensures id in stash ==>
              Consistent(f, levels, store, tree, keys, stash - {id}, cache[next := stash[id]],
                         (contents - {id})[next := contents[id]])
  {
    hide Linked;
    TakeOut(stash, tree, 8 * f.idLen, contents - cache.Keys, id);
    hide Holds, PosAt;
    if id in stash {
      assert (contents - {id})[next := contents[id]] - cache[next := stash[id]].Keys
             == contents - cache.Keys - {id};
    }
  }

  /** The cached blobs are what their users make of them. */
  lemma CacheConsistent(f: Format, levels: nat, store: seq<Cell>, tree: Tree, keys: map<nat, Key>, stash: Stash,
                        cache: map<Ident, Bytes>, contents: map<Ident, Bytes>, id: Ident, data: Bytes)
    requires Consistent(f, levels, store, tree, keys, stash, cache, contents)
    requires id in cache || (id !in contents && IsIdent(8 * f.idLen, id))
    ensures Consistent(f, levels, store, tree, keys, stash, cache[id := data], contents[id := data])
    ensures Consistent(f, levels, store, tree, keys, stash, cache - {id}, contents - {id})
  {
    hide Linked, Holds;
    assert contents[id := data] - cache[id := data].Keys == contents - cache.Keys;
    assert contents - {id} - (cache - {id}).Keys == contents - cache.Keys;
  }

  /** Blobs were packed as deep as there was room: when part of a blob is left in the stash, or in a
      bucket written back above another bucket of its path, the other bucket is full. */
  ghost predicate Settled(f: Format, stash: Stash, tree: Tree, written: set<nat>) {
    && written <= tree.Keys
    && forall q <- written, id | OnPath(8 * f.idLen, id, q) ::
         (id in stash || exists p <- written :: p < q && Named(tree[p].chunks, id)) ==> Full(f, tree[q])
  }

  lemma SettledMeans(f: Format, stash: Stash, tree: Tree, written: set<nat>)
    requires Settled(f, stash, tree, written)
    ensures forall q <- written, id | OnPath(8 * f.idLen, id, q) ::
              (id in stash || exists p <- written :: p < q && p in tree && Named(tree[p].chunks, id)) ==>
                q in tree && 2 * f.keyLen + |f.Encode(tree[q].chunks)| + f.Header() >= f.z
  {
  }

  lemma SettledNone(f: Format, stash: Stash, tree: Tree, all: set<nat>, todo: set<nat>)
    requires all == todo
    ensures Settled(f, stash, tree, all - todo)
  {
  }

  lemma KeysRoot(keys: set<nat>)
    requires KeysOf(keys, {})
    ensures keys == {1}
  {
  }

  lemma TracedNone(n: nat, levels: nat, depths: seq<nat>)
    requires levels < n && depths == []
    ensures TracedBy(n, levels, [], depths, {})
  {
  }

  lemma SettledNext(f: Format, pos: nat, b: Bucket, stash: Stash, stash': Stash, tree: Tree, tree': Tree,
                    keys: set<nat>, keys': set<nat>, written: set<nat>)
    requires Wrote(f, pos, b, stash, stash', tree, tree', keys, keys')
    requires Settled(f, stash, tree, written)
    requires forall q <- written :: pos < q
    ensures Settled(f, stash', tree', written + {pos})
  {
    hide OnPath, Full, Piece, Part;
    forall q, id | q in written + {pos} && OnPath(8 * f.idLen, id, q)
                   && (id in stash' || exists p <- written + {pos} :: p < q && Named(tree'[p].chunks, id))
      ensures Full(f, tree'[q])
    {
      if q != pos {
        assert tree'[q] == tree[q];
        if id !in stash' {
          var p :| p in written + {pos} && p < q && Named(tree'[p].chunks, id);
          assert p != pos ==> tree'[p] == tree[p];
        }
      }
    }
  }

  lemma FetchAbs(contents: map<Ident, Bytes>, cache: map<Ident, Bytes>, rounds: seq<seq<Ident>>, open: seq<Ident>,
                 calls: seq<BlobMap.Call<Bytes>>, id: Ident, next: Ident, data: Bytes)
    requires id in contents && id !in cache
    ensures BlobMap.Store((contents - {id})[next := contents[id]], cache[next := data].Keys, rounds, open + [id],
                          calls + [BlobMap.FetchCall(id, next)])
            == BlobMap.Store(contents, cache.Keys, rounds, open, calls).Fetch(id, next)
  {
  }

  lemma FetchCached(st: BlobMap.Store<Bytes>, id: Ident, next: Ident)
    requires id in st.cached && id in st.blobs
    ensures st.Fetch(id, next) == st
  {
  }

  lemma FinalizeAbs(contents: map<Ident, Bytes>, cached: set<Ident>, rounds: seq<seq<Ident>>, open: seq<Ident>,
                    calls: seq<BlobMap.Call<Bytes>>)
    ensures BlobMap.Store(contents, {}, if open == [] then rounds else rounds + [open], [],
                          calls + [BlobMap.FinalizeCall])
            == BlobMap.Store(contents, cached, rounds, open, calls).Finalize()
  {
  }

  lemma CreateAbs(contents: map<Ident, Bytes>, cache: map<Ident, Bytes>, rounds: seq<seq<Ident>>, open: seq<Ident>,
                  calls: seq<BlobMap.Call<Bytes>>, decoy: Ident, id: Ident)
    ensures BlobMap.Store(contents[id := []], cache[id := []].Keys, rounds, open + [decoy],
                          calls + [BlobMap.CreateReadCall(decoy, id, [])])
            == BlobMap.Store(contents, cache.Keys, rounds, open, calls).CreateRead(decoy, id, [])
    ensures BlobMap.Store(contents[id := []], cache[id := []].Keys, rounds, open,
                          calls + [BlobMap.CreateCall(id, [])])
            == BlobMap.Store(contents, cache.Keys, rounds, open, calls).Create(id, [])
  {
    assert cache[id := []].Keys == cache.Keys + {id};
  }

  lemma DummyAbs(contents: map<Ident, Bytes>, cache: map<Ident, Bytes>, rounds: seq<seq<Ident>>, open: seq<Ident>,
                 calls: seq<BlobMap.Call<Bytes>>, id: Ident)
    ensures BlobMap.Store(contents, cache.Keys, rounds, open + [id], calls + [BlobMap.DummyCall(id)])
            == BlobMap.Store(contents, cache.Keys, rounds, open, calls).DummyOp(id)
  {
  }

  lemma CacheKeys(cache: map<Ident, Bytes>, id: Ident, data: Bytes)
    ensures cache[id := data].Keys == cache.Keys + {id}
    ensures id in cache ==> cache[id := data].Keys == cache.Keys
    ensures (cache - {id}).Keys == cache.Keys - {id}
  {
  }

  lemma NewIdentIs(n: nat, draw: nat)
    requires n > 0 && draw < Pow2(n)
    ensures IsIdent(n, NewIdent(n, draw))
  {
  }
}

/** What the storage, the stash and the keys of a vORAM hold together, and how reading or writing
    one bucket changes it.  `tree` maps the positions whose stored bucket is current (written and
    not read since) to what is in it; n is the number of bits of an ident. */
module VoramTree {

  import opened Bits
  import opened Positions
  import opened VoramCodec

  /** A cell of the storage: raw bytes, or a bucket encrypted under a key. */
  datatype Cell = Raw(bytes: Bytes) | Box(key: Key, plain: Bytes)

  type Stash = map<Ident, Bytes>

  type Tree = map<nat, Bucket>

  // ---------------------------------------------------------------- what a blob is

  /** What a list of chunks holds of one blob. */
  ghost function Piece(chunks: seq<Chunk>, id: Ident): Bytes {
    if chunks == [] then []
    else Piece(chunks[..|chunks| - 1], id)
         + if chunks[|chunks| - 1].id == id then chunks[|chunks| - 1].data else []
  }

  ghost predicate Named(chunks: seq<Chunk>, id: Ident) {
    exists c <- chunks :: c.id == id
  }

  ghost function Part(stash: Stash, id: Ident): Bytes {
    if id in stash then stash[id] else []
  }

  /** The fragments of a blob in the buckets of its path, from depth k down. */
  ghost function Down(tree: Tree, n: nat, id: Ident, k: nat): Bytes
    requires k <= n
    decreases n - k
  {
    if k == n then []
    else (if PosAt(n, id, k) in tree then Piece(tree[PosAt(n, id, k)].chunks, id) else [])
         + Down(tree, n, id, k + 1)
  }

  /** A whole blob: what the stash has of it, then its fragments from the root to the leaf. */
  ghost function Whole(stash: Stash, tree: Tree, n: nat, id: Ident): Bytes {
    Part(stash, id) + Down(tree, n, id, 0)
  }

  ghost predicate Present(stash: Stash, tree: Tree, id: Ident) {
    id in stash || exists p <- tree :: Named(tree[p].chunks, id)
  }

  /** The stash and the tree hold exactly these blobs, each fragment on its blob's path. */
  ghost predicate Holds(stash: Stash, tree: Tree, n: nat, blobs: map<Ident, Bytes>) {
    && (forall id <- blobs :: IsIdent(n, id))
    && (forall p <- tree, id | Named(tree[p].chunks, id) :: OnPath(n, id, p))
    && (forall id :: id in blobs <==> Present(stash, tree, id))
    && (forall id <- blobs :: Whole(stash, tree, n, id) == blobs[id])
  }

  // ---------------------------------------------------------------- layers

  /** No position on the way from pos up to the root is in the tree. */
  ghost predicate Uncovered(tree: Tree, pos: nat) {
    forall j: nat :: Shr(pos, j) !in tree
  }

  lemma {:induction false} DownSkip(tree: Tree, n: nat, id: Ident, k: nat, m: nat)
    requires k <= m <= n
    requires forall j :: k <= j < m ==> PosAt(n, id, j) !in tree
    ensures Down(tree, n, id, k) == Down(tree, n, id, m)
    decreases m - k
  {
    if k < m {
      DownSkip(tree, n, id, k + 1, m);
    }
  }

  lemma {:induction false} DownSame(tree: Tree, tree': Tree, n: nat, id: Ident, k: nat, pos: nat)
    requires k <= n && tree'.Keys == tree.Keys + {pos}
    requires forall p <- tree :: p != pos ==> tree'[p] == tree[p]
    requires forall j :: k <= j < n ==> PosAt(n, id, j) != pos
    ensures Down(tree, n, id, k) == Down(tree', n, id, k)
    decreases n - k
  {
    if k < n {
      DownSame(tree, tree', n, id, k + 1, pos);
    }
  }

  lemma {:induction false} PieceAbsent(chunks: seq<Chunk>, id: Ident)
    requires !Named(chunks, id)
    ensures Piece(chunks, id) == []
  {
    if chunks != [] {
      var front := chunks[..|chunks| - 1];
      assert forall c <- front :: c in chunks;
      assert chunks[|chunks| - 1] in chunks;
      PieceAbsent(front, id);
    }
  }

  /** Adding a bucket above everything a blob has in the tree puts its piece in front. */
  lemma Layer(tree: Tree, n: nat, id: Ident, pos: nat, b: Bucket)
    requires IsIdent(n, id) && Uncovered(tree, pos)
    requires Named(b.chunks, id) ==> OnPath(n, id, pos)
    ensures Down(tree[pos := b], n, id, 0) == Piece(b.chunks, id) + Down(tree, n, id, 0)
  {
    var tree' := tree[pos := b];
    assert pos !in tree by {
      assert Shr(pos, 0) !in tree;
    }
    forall k | 0 <= k < n
      ensures PosAt(n, id, k) == pos ==> OnPath(n, id, pos) && k == BitLength(pos) - 1
    {
      PathPosition(n, id, k);
    }
    if OnPath(n, id, pos) {
      var k := BitLength(pos) - 1;
      forall j | 0 <= j < k
        ensures PosAt(n, id, j) !in tree'
      {
        ShrShr(id, n - 1 - k, k - j);
        assert PosAt(n, id, j) == Shr(pos, k - j);
      }
      DownSkip(tree, n, id, 0, k);
      DownSkip(tree', n, id, 0, k);
      DownSame(tree, tree', n, id, k + 1, pos);
    } else {
      PieceAbsent(b.chunks, id);
      DownSame(tree, tree', n, id, 0, pos);
    }
  }

  /** Nothing changes when a stored bucket that covers no other is taken out and its chunks are
      put behind what the stash has, or the other way around. */
  lemma LayerPresent(stash: Stash, stash': Stash, tree: Tree, pos: nat, b: Bucket, id: Ident)
    requires pos !in tree
    requires id in stash <==> id in stash' || Named(b.chunks, id)
    ensures Present(stash, tree, id) <==> Present(stash', tree[pos := b], id)
  {
    hide Named;
    var tree' := tree[pos := b];
    assert tree'[pos] == b;
    assert forall p <- tree :: p in tree' && tree'[p] == tree[p];
  }

  lemma LayerPlaced(tree: Tree, n: nat, pos: nat, b: Bucket)
    requires pos !in tree
    requires forall id | Named(b.chunks, id) :: OnPath(n, id, pos)
    ensures (forall p <- tree, id | Named(tree[p].chunks, id) :: OnPath(n, id, p)) <==>
            (forall p <- tree[pos := b], id | Named(tree[pos := b][p].chunks, id) :: OnPath(n, id, p))
  {
    hide Named, OnPath;
    var tree' := tree[pos := b];
    assert tree'[pos] == b;
    assert forall p <- tree :: p in tree' && tree'[p] == tree[p];
  }

  /** What the stash and the tree hold does not depend on whether the chunks of a bucket that
      covers everything below it are in the tree or at the end of their blobs' parts in the stash. */
  lemma LayerHolds(stash: Stash, stash': Stash, tree: Tree, n: nat, blobs: map<Ident, Bytes>,
                   pos: nat, b: Bucket)
    requires Uncovered(tree, pos)
    requires forall id :: Part(stash, id) == Part(stash', id) + Piece(b.chunks, id)
    requires forall id :: id in stash <==> id in stash' || Named(b.chunks, id)
    requires forall id | Named(b.chunks, id) :: OnPath(n, id, pos)
    ensures Holds(stash, tree, n, blobs) <==> Holds(stash', tree[pos := b], n, blobs)
  {
    hide Named, OnPath, Present, Piece, Part, Down;
    var tree' := tree[pos := b];
    assert pos !in tree by {
      assert Shr(pos, 0) !in tree;
    }
    LayerPlaced(tree, n, pos, b);
    forall id
      ensures Present(stash, tree, id) <==> Present(stash', tree', id)
    {
      LayerPresent(stash, stash', tree, pos, b, id);
    }
    forall id | IsIdent(n, id)
      ensures Whole(stash, tree, n, id) == Whole(stash', tree', n, id)
    {
      Layer(tree, n, id, pos, b);
      assert Part(stash, id) == Part(stash', id) + Piece(b.chunks, id);
    }
    hide Whole;
  }

  // ---------------------------------------------------------------- the stash

  /** The stash after the chunks of a bucket were read into it. */
  function Absorb(stash: Stash, chunks: seq<Chunk>): Stash {
    if chunks == [] then stash
    else
      var before := Absorb(stash, chunks[..|chunks| - 1]);
      var c := chunks[|chunks| - 1];
      before[c.id := (if c.id in before then before[c.id] else []) + c.data]
  }

  lemma NamedSplit(chunks: seq<Chunk>, id: Ident)
    requires chunks != []
    ensures Named(chunks, id) <==>
            Named(chunks[..|chunks| - 1], id) || chunks[|chunks| - 1].id == id
  {
    var front, last := chunks[..|chunks| - 1], chunks[|chunks| - 1];
    assert chunks == front + [last];
    assert forall c :: c in chunks <==> c in front || c == last;
  }

  lemma {:induction false} AbsorbParts(stash: Stash, chunks: seq<Chunk>, id: Ident)
    ensures Part(Absorb(stash, chunks), id) == Part(stash, id) + Piece(chunks, id)
    ensures id in Absorb(stash, chunks) <==> id in stash || Named(chunks, id)
  {
    if chunks == [] {
      assert !Named(chunks, id);
    } else {
      var front, c := chunks[..|chunks| - 1], chunks[|chunks| - 1];
      AbsorbParts(stash, front, id);
      NamedSplit(chunks, id);
      AbsorbOne(Absorb(stash, front), c, id);
      hide Named, Part;
      var more := if c.id == id then c.data else [];
      assert Piece(chunks, id) == Piece(front, id) + more;
      assert Part(stash, id) + (Piece(front, id) + more) == Part(stash, id) + Piece(front, id) + more;
    }
  }

  lemma AbsorbOne(before: Stash, c: Chunk, id: Ident)
    ensures Part(before[c.id := (if c.id in before then before[c.id] else []) + c.data], id)
            == Part(before, id) + if c.id == id then c.data else []
  {
  }

  // ---------------------------------------------------------------- keys

  function ChildKey(b: Bucket, child: nat): Key {
    if child % 2 == 0 then b.key0 else b.key1
  }

  /** Every current bucket is stored under a key, which its parent holds if the parent is current
      and which is held locally otherwise. */
  ghost predicate Linked(f: Format, store: seq<Cell>, tree: Tree, keys: map<nat, Key>) {
    forall p <- tree :: LinkedAt(f, store, tree, keys, p)
  }

  ghost predicate LinkedAt(f: Format, store: seq<Cell>, tree: Tree, keys: map<nat, Key>, p: nat)
    requires p in tree
  {
    && 0 < p <= |store|
    && f.IsBucket(tree[p])
    && store[p - 1].Box? && store[p - 1].plain == f.Image(tree[p])
    && |store[p - 1].key| == f.keyLen
    && (p / 2 in tree ==> ChildKey(tree[p / 2], p) == store[p - 1].key)
    && (p / 2 !in tree ==> p in keys && keys[p] == store[p - 1].key)
  }

  /** The held keys are those of the root and of the children of the buckets that were read. */
  ghost predicate KeysOf(keys: set<nat>, read: set<nat>) {
    forall p :: p in keys <==> p == 1 || (p >= 2 && p / 2 in read)
  }

  lemma ReadLinkedAt(f: Format, store: seq<Cell>, tree: Tree, keys: map<nat, Key>, pos: nat, q: nat)
    requires pos in tree && q in tree && q != pos
    requires LinkedAt(f, store, tree, keys, q)
    ensures LinkedAt(f, store, tree - {pos},
                     keys[2 * pos := tree[pos].key0][2 * pos + 1 := tree[pos].key1], q)
  {
    hide Format.IsBucket, Format.Image;
    if q / 2 == pos {
      assert q == 2 * pos || q == 2 * pos + 1;
    }
  }

  /** Reading a bucket takes it out of the tree and its keys into the local ones. */
  lemma ReadLinked(f: Format, store: seq<Cell>, tree: Tree, keys: map<nat, Key>, pos: nat)
    requires Linked(f, store, tree, keys) && pos in tree
    ensures LinkedAt(f, store, tree, keys, pos)
    ensures Linked(f, store, tree - {pos},
                   keys[2 * pos := tree[pos].key0][2 * pos + 1 := tree[pos].key1])
  {
    hide LinkedAt, ChildKey;
    forall q | q in tree - {pos}
      ensures LinkedAt(f, store, tree - {pos},
                       keys[2 * pos := tree[pos].key0][2 * pos + 1 := tree[pos].key1], q)
    {
      ReadLinkedAt(f, store, tree, keys, pos, q);
    }
  }

  lemma WriteLinkedAt(f: Format, store: seq<Cell>, tree: Tree, keys: map<nat, Key>,
                      pos: nat, b: Bucket, key: Key, q: nat)
    requires 0 < pos <= |store| && pos !in tree
    requires 2 * pos in keys ==> b.key0 == keys[2 * pos]
    requires 2 * pos + 1 in keys ==> b.key1 == keys[2 * pos + 1]
    requires q in tree && LinkedAt(f, store, tree, keys, q)
    ensures LinkedAt(f, store[pos - 1 := Box(key, f.Image(b))], tree[pos := b],
                     (keys - {2 * pos, 2 * pos + 1})[pos := key], q)
  {
    hide Format.IsBucket, Format.Image;
    if q / 2 == pos {
      assert q == 2 * pos || q == 2 * pos + 1;
    }
  }

  /** Writing a bucket hands the keys of its children over to it. */
  lemma WriteLinked(f: Format, store: seq<Cell>, tree: Tree, keys: map<nat, Key>,
                    pos: nat, b: Bucket, key: Key)
    requires Linked(f, store, tree, keys)
    requires 0 < pos <= |store| && pos !in tree && pos / 2 !in tree
    requires f.IsBucket(b) && |key| == f.keyLen
    requires 2 * pos in keys ==> b.key0 == keys[2 * pos]
    requires 2 * pos + 1 in keys ==> b.key1 == keys[2 * pos + 1]
    ensures Linked(f, store[pos - 1 := Box(key, f.Image(b))], tree[pos := b],
                   (keys - {2 * pos, 2 * pos + 1})[pos := key])
  {
    hide Format.IsBucket, Format.Image;
    var store' := store[pos - 1 := Box(key, f.Image(b))];
    var tree' := tree[pos := b];
    var keys' := (keys - {2 * pos, 2 * pos + 1})[pos := key];
    assert LinkedAt(f, store', tree', keys', pos);
    forall q | q in tree
      ensures LinkedAt(f, store', tree', keys', q)
    {
      hide LinkedAt, ChildKey;
      WriteLinkedAt(f, store, tree, keys, pos, b, key, q);
    }
  }

  // ---------------------------------------------------------------- room

  /** A bucket with no room for another chunk. */
  ghost predicate Full(f: Format, b: Bucket) {
    f.z <= 2 * f.keyLen + |f.Encode(b.chunks)| + f.Header()
  }

  /** Below `bound`, the children of a position in the tree are in the tree. */
  ghost predicate ClosedBelow(tree: Tree, bound: nat) {
    && 0 !in tree
    && forall c :: 2 <= c < bound && c / 2 in tree ==> c in tree
  }

  lemma {:induction false} UncoveredUp(tree: Tree, bound: nat, pos: nat, j: nat)
    requires ClosedBelow(tree, bound) && pos < bound && pos !in tree
    ensures Shr(pos, j) !in tree && Shr(pos, j) <= pos
  {
    if j > 0 {
      UncoveredUp(tree, bound, pos, j - 1);
    }
  }

  lemma UncoveredAll(tree: Tree, bound: nat, pos: nat)
    requires ClosedBelow(tree, bound) && pos < bound && pos !in tree
    ensures Uncovered(tree, pos)
  {
    forall j: nat
      ensures Shr(pos, j) !in tree
    {
      UncoveredUp(tree, bound, pos, j);
    }
  }
}

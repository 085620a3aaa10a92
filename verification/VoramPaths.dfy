/** Consequences of the vORAM invariants that single operations need: moving a blob between the
    stash and the cache, packing a bucket, and the positions of a path. */
module VoramPaths {

  import opened Bits
  import opened Positions
  import opened VoramCodec
  import opened VoramTree

  // ---------------------------------------------------------------- stash and cache

  lemma {:induction false} DownAbsent(tree: Tree, n: nat, id: Ident, k: nat)
    requires k <= n
    requires forall p <- tree :: !Named(tree[p].chunks, id)
    ensures Down(tree, n, id, k) == []
    decreases n - k
  {
    if k < n {
      DownAbsent(tree, n, id, k + 1);
      if PosAt(n, id, k) in tree {
        PieceAbsent(tree[PosAt(n, id, k)].chunks, id);
      }
    }
  }

  lemma PresentSame(stash: Stash, stash': Stash, tree: Tree, id: Ident)
    requires id in stash <==> id in stash'
    ensures Present(stash, tree, id) <==> Present(stash', tree, id)
  {
  }

  /** A blob that is in neither stash nor tree can be put into the stash. */
  lemma PutIn(stash: Stash, tree: Tree, n: nat, blobs: map<Ident, Bytes>, id: Ident, data: Bytes)
    requires Holds(stash, tree, n, blobs) && IsIdent(n, id) && id !in blobs
    ensures Holds(stash[id := data], tree, n, blobs[id := data])
  {
    hide Named, Down, OnPath;
    var stash' := stash[id := data];
    assert !Present(stash, tree, id);
    DownAbsent(tree, n, id, 0);
    assert Whole(stash', tree, n, id) == data + [];
    forall x | x != id
      ensures Present(stash, tree, x) <==> Present(stash', tree, x)
      ensures Whole(stash, tree, n, x) == Whole(stash', tree, n, x)
    {
      PresentSame(stash, stash', tree, x);
    }
    assert Present(stash', tree, id);
    hide Present, Whole;
  }

  lemma {:induction false} PutAll(stash: Stash, tree: Tree, n: nat, blobs: map<Ident, Bytes>,
                                  cache: map<Ident, Bytes>)
    requires Holds(stash, tree, n, blobs)
    requires forall id <- cache :: IsIdent(n, id) && id !in blobs
    ensures Holds(stash + cache, tree, n, blobs + cache)
    decreases |cache|
  {
    hide Holds, IsIdent;
    if cache == map[] {
      assert stash + cache == stash && blobs + cache == blobs;
    } else {
      var id :| id in cache;
      var rest := cache - {id};
      assert |rest| < |cache| by {
          assert rest.Keys == cache.Keys - {id};
      }
      PutAll(stash, tree, n, blobs, rest);
      PutIn(stash + rest, tree, n, blobs + rest, id, cache[id]);
      AddLast(stash, cache, id);
      AddLast(blobs, cache, id);
    }
  }

  lemma AddLast(m: map<Ident, Bytes>, cache: map<Ident, Bytes>, id: Ident)
    requires id in cache
    ensures (m + (cache - {id}))[id := cache[id]] == m + cache
  {
  }

  /** When its path has been read, a blob is all in the stash, and can be taken out of it. */
  lemma TakeOut(stash: Stash, tree: Tree, n: nat, blobs: map<Ident, Bytes>, id: Ident)
    requires Holds(stash, tree, n, blobs) && IsIdent(n, id)
    requires forall k :: 0 <= k < n ==> PosAt(n, id, k) !in tree
    ensures id in stash <==> id in blobs
    ensures id in stash ==> stash[id] == blobs[id]
    ensures Holds(stash - {id}, tree, n, blobs - {id})
  {
    hide Named, Down;
    forall p | p in tree
      ensures !Named(tree[p].chunks, id)
    {
    }
    DownAbsent(tree, n, id, 0);
    assert id in blobs <==> id in stash;
    if id in blobs {
      assert Whole(stash, tree, n, id) == stash[id] + [];
    }
    var stash' := stash - {id};
    forall x | x != id
      ensures Present(stash, tree, x) <==> Present(stash', tree, x)
      ensures Whole(stash, tree, n, x) == Whole(stash', tree, n, x)
    {
      PresentSame(stash, stash', tree, x);
    }
    assert !Present(stash', tree, id);
    hide Present, Whole, OnPath;
  }

  // ---------------------------------------------------------------- packing

  ghost predicate DistinctIds(chunks: seq<Chunk>) {
    forall i, j :: 0 <= i < j < |chunks| ==> chunks[i].id != chunks[j].id
  }

  lemma {:induction false} PieceOne(chunks: seq<Chunk>, j: nat)
    requires DistinctIds(chunks) && j < |chunks|
    ensures Piece(chunks, chunks[j].id) == chunks[j].data
  {
    var front := chunks[..|chunks| - 1];
    if j == |chunks| - 1 {
      PieceAbsent(front, chunks[j].id);
    } else {
      PieceOne(front, j);
    }
  }

  /** The first chunks of `ids` were packed: what is left of each blob is in `rest`, and the blobs
      in `gone` were packed completely. */
  ghost predicate Packed(stash: Stash, rest: Stash, chunks: seq<Chunk>, gone: set<Ident>) {
    && DistinctIds(chunks)
    && rest.Keys == stash.Keys
    && (forall c <- chunks :: c.id in stash)
    && (forall id <- gone :: Named(chunks, id))
    && (forall c <- chunks ::
          stash[c.id] == (if c.id in gone then [] else rest[c.id]) + c.data)
    && (forall id <- stash :: !Named(chunks, id) ==> rest[id] == stash[id])
  }

  lemma PackedParts(stash: Stash, rest: Stash, chunks: seq<Chunk>, gone: set<Ident>, id: Ident)
    requires Packed(stash, rest, chunks, gone)
    ensures Part(stash, id) == Part(rest - gone, id) + Piece(chunks, id)
    ensures id in stash <==> id in rest - gone || Named(chunks, id)
  {
    if Named(chunks, id) {
      var c :| c in chunks && c.id == id;
      var j :| 0 <= j < |chunks| && chunks[j] == c;
      PieceOne(chunks, j);
    } else {
      PieceAbsent(chunks, id);
      if id in stash {
        assert rest[id] + [] == stash[id];
      }
    }
  }

  lemma PackOne(stash: Stash, rest: Stash, chunks: seq<Chunk>, gone: set<Ident>, id: Ident, keep: nat)
    requires Packed(stash, rest, chunks, gone)
    requires id in stash && !Named(chunks, id) && keep <= |rest[id]|
    ensures keep == 0 ==>
              Packed(stash, rest, chunks + [Chunk(id, rest[id])], gone + {id})
    ensures keep > 0 ==>
              Packed(stash, rest[id := rest[id][..keep]], chunks + [Chunk(id, rest[id][keep..])], gone)
  {
    var c := if keep == 0 then Chunk(id, rest[id]) else Chunk(id, rest[id][keep..]);
    var chunks' := chunks + [c];
    assert c in chunks';
    assert forall x <- chunks' :: x in chunks || x == c;
    assert forall x <- chunks :: x in chunks';
    assert rest[id] == rest[id][..keep] + rest[id][keep..];
    assert [] + rest[id] == rest[id];
    assert forall x :: Named(chunks', x) <==> Named(chunks, x) || x == id;
    forall i, j | 0 <= i < j < |chunks'|
      ensures chunks'[i].id != chunks'[j].id
    {
      if j == |chunks| {
        assert chunks[i] in chunks;
      }
    }
  }

  // ---------------------------------------------------------------- paths

  /** A path starts at the root, and every position on it follows its parent. */
  lemma PathFrom(n: nat, id: Ident, k: nat, levels: nat)
    requires IsIdent(n, id) && k <= levels < n
    ensures 0 < PosAt(n, id, k) < Pow2(levels + 1)
    ensures k == 0 ==> PosAt(n, id, k) == 1
    ensures k > 0 ==> PosAt(n, id, k) / 2 == PosAt(n, id, k - 1)
  {
    PathPosition(n, id, k);
    Pow2Monotone(k + 1, levels + 1);
  }

  lemma PathBeyond(n: nat, id: Ident, k: nat, levels: nat)
    requires IsIdent(n, id) && levels < k < n
    ensures Pow2(levels + 1) <= PosAt(n, id, k)
  {
    PathPosition(n, id, k);
    Pow2Monotone(levels + 1, k);
  }

  /** The first bytes of an ident are the ident shifted right. */
  lemma {:induction false} LeadingBytes(id: nat, len: nat, m: nat)
    requires m <= len
    requires id < Pow2(8 * len)
    ensures Number(Digits(id, len)[..m]) == Shr(id, 8 * (len - m))
    decreases len
  {
    if m == len {
      DigitsNumber(id, len);
      assert Digits(id, len)[..m] == Digits(id, len);
    } else {
      Pow2Bytes(len);
      LeadingBytes(id / 256, len - 1, m);
      assert Digits(id, len)[..m] == Digits(id / 256, len - 1)[..m];
      ShrByte(id);
      ShrShr(id, 8, 8 * (len - 1 - m));
    }
  }

  /** A bucket whose parent was read covers none that was not read. */
  lemma UncoveredChild(tree: Tree, bound: nat, pos: nat)
    requires ClosedBelow(tree, bound) && 0 < pos < bound && pos / 2 !in tree
    ensures Uncovered(tree - {pos}, pos)
  {
    forall j: nat
      ensures Shr(pos, j) !in tree - {pos}
    {
      if j > 0 {
        UncoveredUp(tree, bound, pos / 2, j - 1);
        ShrShr(pos, 1, j - 1);
        assert Shr(pos, 1) == Shr(pos, 0) / 2;
      }
    }
  }

  /** Shifting the first m bytes of an ident right gives the positions on its path. */
  lemma PathShift(id: nat, len: nat, m: nat, k: nat)
    requires IsIdent(8 * len, id) && 0 < m <= len && k < 8 * m
    ensures var idint := Number(Digits(id, len)[..m]);
            BitLength(idint) == 8 * m && Shr(idint, 8 * m - 1 - k) == PosAt(8 * len, id, k)
  {
    hide Digits, Number, Shr, Pow2, BitLength;
    LeadingBytes(id, len, m);
    ShrRange(id, 8 * len, 8 * (len - m));
    BitLengthUnique(Shr(id, 8 * (len - m)), 8 * m - 1);
    ShrShr(id, 8 * (len - m), 8 * m - 1 - k);
  }
}

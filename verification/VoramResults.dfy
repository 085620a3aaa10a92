/** What the invariants of a vORAM mean: the root key opens every bucket, and the stored bytes, the
    stash and the cache determine the blobs. */
module VoramResults {

  import opened Common
  import opened Bits
  import opened Positions
  import opened VoramCodec
  import opened VoramTree
  import opened VoramSteps
  import opened Vorams
  import B = BlobMap

  /** The key of a position as one who holds the root key finds it: by decrypting the buckets on
      the way down. */
  ghost function KeyAt(f: Format, store: seq<Cell>, rootKey: Key, pos: nat): Key
    requires pos > 0
  {
    if pos == 1 then rootKey
    else
      var raw := if pos / 2 <= |store| then Decrypt(KeyAt(f, store, rootKey, pos / 2), store[pos / 2 - 1]) else [];
      if |raw| < 2 * f.keyLen then [] else ChildKey(f.Decode(raw), pos)
  }

  /** With only the root key held, every bucket of the tree can be decrypted. */
  lemma {:induction false} KeyChain(f: Format, store: seq<Cell>, tree: Tree, keys: map<nat, Key>,
                                    bound: nat, pos: nat)
    requires Linked(f, store, tree, keys) && Covers(tree, {}, bound) && 1 in keys
    requires 0 < pos < bound
    ensures pos in tree && pos <= |store| && f.IsBucket(tree[pos])
    ensures Decrypt(KeyAt(f, store, keys[1], pos), store[pos - 1]) == f.Image(tree[pos])
    decreases pos
  {
    hide Format.IsBucket, Format.Image, Format.Decode;
    assert LinkedAt(f, store, tree, keys, pos);
    if pos > 1 {
      var up := pos / 2;
      KeyChain(f, store, tree, keys, bound, up);
      DecodeImage(f, tree[up]);
      BucketSize(f, tree[up]);
      assert KeyAt(f, store, keys[1], pos) == ChildKey(tree[up], pos);
    }
  }

  lemma BucketSize(f: Format, b: Bucket)
    requires f.IsBucket(b)
    ensures 2 * f.keyLen <= f.z
  {
  }

  /** The buckets are determined by the stored bytes and the root key. */
  lemma TreeDetermined(f: Format, store: seq<Cell>, tree: Tree, tree': Tree, keys: map<nat, Key>, bound: nat)
    requires Linked(f, store, tree, keys) && Covers(tree, {}, bound) && 1 in keys
    requires Linked(f, store, tree', keys) && Covers(tree', {}, bound)
    ensures tree == tree'
  {
    hide Linked, Format.IsBucket, Format.Image;
    forall p | p in tree
      ensures p in tree' && tree[p] == tree'[p]
    {
      KeyChain(f, store, tree, keys, bound, p);
      KeyChain(f, store, tree', keys, bound, p);
      ImageInjective(f, tree[p], tree'[p]);
    }
  }

  /** So what a vORAM with nothing read holds is determined by what it stores: there is one list of
      blobs that its state can stand for. */
  lemma ContentsDetermined(f: Format, levels: nat, store: seq<Cell>, tree: Tree, tree': Tree, keys: map<nat, Key>,
                           stash: Stash, cache: map<Ident, Bytes>,
                           contents: map<Ident, Bytes>, contents': map<Ident, Bytes>)
    requires Consistent(f, levels, store, tree, keys, stash, cache, contents)
    requires Consistent(f, levels, store, tree', keys, stash, cache, contents')
    requires Covers(tree, {}, Pow2(levels + 1)) && Covers(tree', {}, Pow2(levels + 1)) && 1 in keys
    ensures contents == contents'
  {
    TreeDetermined(f, store, tree, tree', keys, Pow2(levels + 1));
    hide Linked, Covers, Present, Whole, IsIdent, Format.Valid, OnPath, Named;
    forall id
      ensures id in contents <==> id in contents'
      ensures id in contents ==> contents[id] == contents'[id]
    {
      assert id !in cache ==> (id in contents <==> Present(stash, tree, id));
      if id in contents && id !in cache {
        assert (contents - cache.Keys)[id] == (contents' - cache.Keys)[id];
      }
    }
  }

  // ---------------------------------------------------------------- obliviousness of a creation

  /** A creation by default reads the path of one new ident and gives the blob another, so that the next
      fetch of the blob reads a path that was never read, too. */
  method CreateUnseen(v: Voram, issued: set<Ident>, draw: nat, draw': nat) returns (ref: Ref)
    requires v.Valid() && v.Width() > 0 && draw < Pow2(v.Width()) && draw' < Pow2(v.Width())
    requires v.Abs().Oblivious(issued)
    requires NewIdent(v.Width(), draw) !in issued && NewIdent(v.Width(), draw') !in issued
    requires NewIdent(v.Width(), draw) != NewIdent(v.Width(), draw')
    modifies v
    ensures v.Valid() && fresh(ref) && ref.Named() && ref.Ident() == NewIdent(v.Width(), draw')
    ensures v.Abs().Reads() == old(v.Abs()).Reads() + [NewIdent(v.Width(), draw)]
    ensures v.Abs().Oblivious(issued + {NewIdent(v.Width(), draw), NewIdent(v.Width(), draw')})
    ensures ref.Ident() in v.Abs().blobs && ref.Ident() !in v.Abs().Reads()
  {
    hide Voram.Valid;
    var decoy, id := NewIdent(v.Width(), draw), NewIdent(v.Width(), draw');
    CreateReadUnseen(v.Abs(), issued, decoy, id);
    ref := v.Create(true, None, false, draw, draw');
  }

  lemma CreateReadUnseen(st: B.Store<Bytes>, issued: set<Ident>, decoy: Ident, id: Ident)
    requires st.Oblivious(issued) && decoy !in issued && id !in issued && decoy != id
    ensures id !in st.blobs
    ensures st.CreateRead(decoy, id, []).Oblivious(issued + {decoy, id})
    ensures st.CreateRead(decoy, id, []).Reads() == st.Reads() + [decoy]
    ensures id in st.CreateRead(decoy, id, []).blobs && id !in st.CreateRead(decoy, id, []).Reads()
  {
    hide NoDup;
    assert st.Oblivious(issued + {decoy, id});
    B.CreateReadOblivious(st, issued + {decoy, id}, decoy, id, []);
  }
}

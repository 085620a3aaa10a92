/** A HIRB on a vORAM: the calls that any run of operations on a HIRB makes are served by a vORAM that
    encrypts its buckets, which returns the nodes the HIRB worked with and reads the paths it asked for. */
module HirbVoram {

  import opened Common
  import opened Bits
  import opened Positions
  import opened VoramCodec
  import opened VoramSteps
  import opened Vorams
  import opened HirbShape
  import opened HirbStore
  import opened HirbTree
  import opened HirbResults
  import B = BlobMap

  // ---------------------------------------------------------------- nodes as bytes

  function EncodedCall(enc: Node -> Bytes, call: B.Call<Node>): B.Call<Bytes> {
    match call
    case FetchCall(id, next) => B.FetchCall(id, next)
    case CreateReadCall(decoy, id, n) => B.CreateReadCall(decoy, id, enc(n))
    case CreateCall(id, n) => B.CreateCall(id, enc(n))
    case DummyCall(decoy) => B.DummyCall(decoy)
    case SetCall(id, n) => B.SetCall(id, enc(n))
    case RemoveCall(id) => B.RemoveCall(id)
    case FinalizeCall => B.FinalizeCall
  }

  function EncodedCalls(enc: Node -> Bytes, calls: seq<B.Call<Node>>): seq<B.Call<Bytes>> {
    seq(|calls|, i requires 0 <= i < |calls| => EncodedCall(enc, calls[i]))
  }

  ghost function EncodedBlobs(enc: Node -> Bytes, blobs: Blobs): map<B.Ident, Bytes> {
    map id <- blobs :: enc(blobs[id])
  }

  ghost function DecodedBlobs(dec: Bytes -> Node, blobs: map<B.Ident, Bytes>): Blobs {
    map id <- blobs :: dec(blobs[id])
  }

  ghost function Encoded(enc: Node -> Bytes, st: B.Store<Node>): B.Store<Bytes> {
    B.Store(EncodedBlobs(enc, st.blobs), st.cached, st.rounds, st.open, EncodedCalls(enc, st.calls))
  }

  lemma EncodedDo(enc: Node -> Bytes, st: B.Store<Node>, call: B.Call<Node>)
    requires B.Legal(st, call)
    ensures B.Legal(Encoded(enc, st), EncodedCall(enc, call))
    ensures B.Do(Encoded(enc, st), EncodedCall(enc, call)) == Encoded(enc, B.Do(st, call))
  {
    var did := B.Do(Encoded(enc, st), EncodedCall(enc, call));
    assert did.calls == EncodedCalls(enc, B.Do(st, call).calls);
    assert did.blobs == EncodedBlobs(enc, B.Do(st, call).blobs);
  }

  /** Encoding the calls encodes what they lead to. */
  lemma {:induction false} EncodedReplay(enc: Node -> Bytes, calls: seq<B.Call<Node>>)
    requires B.Replay(calls).Some?
    ensures B.Replay(EncodedCalls(enc, calls)) == Some(Encoded(enc, B.Replay(calls).value))
    ensures Answers(EncodedCalls(enc, calls)) == EncodedAnswers(enc, Answers(calls))
  {
    if calls != [] {
      var before, call := calls[..|calls| - 1], calls[|calls| - 1];
      EncodedReplay(enc, before);
      EncodedDo(enc, B.Replay(before).value, call);
      assert EncodedCalls(enc, calls)[..|calls| - 1] == EncodedCalls(enc, before);
    }
  }

  // ---------------------------------------------------------------- what the calls return

  /** The blobs that the fetches of a list of calls return, in order. */
  ghost function Answers<T>(calls: seq<B.Call<T>>): seq<T>
    requires B.Replay(calls).Some?
  {
    if calls == [] then []
    else
      var before := calls[..|calls| - 1];
      Answers(before) + Returned(B.Replay(before).value, calls[|calls| - 1])
  }

  ghost function Returned<T>(st: B.Store<T>, call: B.Call<T>): seq<T>
    requires B.Legal(st, call)
  {
    if call.FetchCall? then [st.blobs[call.id]] else []
  }

  ghost function EncodedAnswers(enc: Node -> Bytes, nodes: seq<Node>): seq<Bytes> {
    seq(|nodes|, i requires 0 <= i < |nodes| => enc(nodes[i]))
  }

  // ---------------------------------------------------------------- serving calls

  /** The idents that a call brings in have n bits, and what it creates is blank. */
  predicate Proper<T(==)>(n: nat, blank: T, call: B.Call<T>) {
    match call
    case FetchCall(_, next) => IsIdent(n, next)
    case CreateReadCall(decoy, id, b) => IsIdent(n, decoy) && IsIdent(n, id) && b == blank
    case CreateCall(id, b) => IsIdent(n, id) && b == blank
    case DummyCall(decoy) => IsIdent(n, decoy)
    case SetCall(_, _) => true
    case RemoveCall(_) => true
    case FinalizeCall => true
  }

  /** Serves one call, with the random draws that lead to its idents. */
  method Serve(v: Voram, call: B.Call<Bytes>) returns (got: seq<Bytes>)
    requires v.Valid() && B.Legal(v.Abs(), call) && Proper(v.Width(), [], call)
    modifies v
    ensures v.Valid() && v.Abs() == B.Do(old(v.Abs()), call)
    ensures got == old(Returned(v.Abs(), call))
  {
    CachedKnown(v.format, v.levels, v.store, v.tree, v.nodeKeys, v.stash, v.cache, v.contents);
    hide Voram.Valid, Pow2;
    got := [];
    match call
    case FetchCall(id, next) =>
      var ref := new Ref(v, Some(id), false, Some(next), 0);
      var found := v.Fetch(ref, 0);
      var data := v.Get(next);
      got := [data.value];
    case CreateReadCall(decoy, id, _) =>
      var ref := v.Create(true, Some(id), false, decoy, 0);
    case CreateCall(id, _) =>
      var ref := v.Create(false, None, false, id, 0);
    case DummyCall(decoy) =>
      v.DummyOp(false, decoy);
    case SetCall(id, b) =>
      var ok := v.Set(id, b);
    case RemoveCall(id) =>
      var ok := v.Remove(id);
    case FinalizeCall =>
      v.Finalize();
  }

  /** A new vORAM serves any list of legal calls. */
  method ServeAll(levels: nat, nodeSize: nat, keyLen: nat, idLen: nat, keys: nat -> Key, calls: seq<B.Call<Bytes>>)
    returns (v: Voram, got: seq<Bytes>)
    requires levels < 8 * idLen && nodeSize >= 2 * keyLen + 2
    requires Format(nodeSize, keyLen, idLen, LengthBytes(nodeSize - 2 * keyLen - 2)).Valid()
    requires forall i: nat :: |keys(i)| == keyLen
    requires B.Replay(calls).Some? && forall call <- calls :: Proper(8 * idLen, [], call)
    ensures fresh(v) && v.Valid() && v.Abs() == B.Replay(calls).value
    ensures got == Answers(calls)
  {
    hide Voram.Valid, Format.Valid, Proper, Returned, B.Legal, B.Do;
    v := new Voram(levels, nodeSize, keyLen, idLen, keys);
    got := [];
    assert calls[..|calls|] == calls;
    for i := 0 to |calls|
      invariant fresh(v) && v.Valid() && v.Width() == 8 * idLen
      invariant B.Replay(calls[..i]) == Some(v.Abs()) && got == Answers(calls[..i])
    {
      ReplayPrefix(calls, i + 1);
      assert calls[..i + 1][..i] == calls[..i];
      var more := Serve(v, calls[i]);
      got := got + more;
    }
  }

  lemma {:induction false} ReplayPrefix<T>(calls: seq<B.Call<T>>, i: nat)
    requires B.Replay(calls).Some? && i <= |calls|
    ensures B.Replay(calls[..i]).Some?
    decreases |calls|
  {
    if i == |calls| {
      assert calls[..i] == calls;
    } else {
      ReplayPrefix(calls[..|calls| - 1], i);
      assert calls[..|calls| - 1][..i] == calls[..i];
    }
  }

  // ---------------------------------------------------------------- a HIRB on a vORAM

  /** Whatever was done with a HIRB: if its idents have the length that a vORAM gives them, the vORAM that
      served its calls holds exactly its tree, returned the nodes it worked with, and read its paths. */
  method OnVoram(t: Hirb, enc: Node -> Bytes, ghost dec: Bytes -> Node,
                 levels: nat, nodeSize: nat, keyLen: nat, idLen: nat, keys: nat -> Key)
    returns (v: Voram, got: seq<Bytes>)
    requires t.Valid()
    requires enc(Blank) == [] && forall n :: dec(enc(n)) == n
    requires levels < 8 * idLen && nodeSize >= 2 * keyLen + 2
    requires Format(nodeSize, keyLen, idLen, LengthBytes(nodeSize - 2 * keyLen - 2)).Valid()
    requires forall i: nat :: |keys(i)| == keyLen
    requires forall call <- t.oram.calls :: Proper(8 * idLen, Blank, call)
    ensures fresh(v) && v.Valid() && v.Abs() == Encoded(enc, t.oram)
    ensures Whole(t.draws, DecodedBlobs(dec, v.contents)[ROOT := t.root.Val()], t.height, t.items)
    ensures v.rounds == t.oram.rounds && v.open == t.oram.open && NoDup(v.Abs().Reads())
    ensures B.Replay(t.oram.calls).Some? && got == EncodedAnswers(enc, Answers(t.oram.calls))
  {
    HirbRecorded(t);
    EncodedReplay(enc, t.oram.calls);
    ProperEncoded(enc, t.oram.calls, 8 * idLen);
    hide Voram.Valid, Hirb.Valid, Format.Valid, Proper, Answers, B.Replay, NoDup;
    v, got := ServeAll(levels, nodeSize, keyLen, idLen, keys, EncodedCalls(enc, t.oram.calls));
    DecodeEncoded(enc, dec, t.oram.blobs);
  }

  /** A run on a HIRB as its users see it: the answers are a dictionary's, and the vORAM below holds the
      dictionary's only tree and was read in rounds of two paths that were never read before. */
  method RunOnVoram(t: Hirb, ops: seq<Op>, enc: Node -> Bytes, ghost dec: Bytes -> Node,
                    levels: nat, nodeSize: nat, keyLen: nat, idLen: nat, keys: nat -> Key)
    returns (found: seq<Option<Value>>, fits: bool, v: Voram?)
    requires t.Valid() && t.oram.Quiet() && t.uncounted == 0
    requires DeletesPresent(t.Contents(), ops)
    requires enc(Blank) == [] && forall n :: dec(enc(n)) == n
    requires levels < 8 * idLen && nodeSize >= 2 * keyLen + 2
    requires Format(nodeSize, keyLen, idLen, LengthBytes(nodeSize - 2 * keyLen - 2)).Valid()
    requires forall i: nat :: |keys(i)| == keyLen
    modifies t, t.root
    ensures |found| == |ops| && forall i :: 0 <= i < |ops| ==> found[i] == Answer(old(t.Contents()), ops, i)
    ensures t.Contents() == ApplyAll(old(t.Contents()), ops)
    ensures fits <==> forall call <- t.oram.calls :: Proper(8 * idLen, Blank, call)
    ensures fits ==>
              && v != null && v.Valid()
              && Whole(t.draws, DecodedBlobs(dec, v.contents)[ROOT := t.root.Val()], t.height, t.items)
              && PairsSince(old(t.oram.rounds), v.rounds) && v.open == [] && NoDup(v.Abs().Reads())
  {
    hide Voram.Valid, Hirb.Valid, Format.Valid, Proper, Answers, B.Replay, NoDup, Whole, ApplyAll;
    found := Run(t, ops);
    fits := forall call <- t.oram.calls :: Proper(8 * idLen, Blank, call);
    v := null;
    if fits {
      var got;
      v, got := OnVoram(t, enc, dec, levels, nodeSize, keyLen, idLen, keys);
    }
  }

  lemma HirbRecorded(t: Hirb)
    requires t.Valid()
    ensures B.Recorded(t.oram) && NoDup(t.oram.Reads())
    ensures Whole(t.draws, t.oram.blobs[ROOT := t.root.Val()], t.height, t.items)
  {
  }

  lemma ProperEncoded(enc: Node -> Bytes, calls: seq<B.Call<Node>>, n: nat)
    requires enc(Blank) == [] && forall call <- calls :: Proper(n, Blank, call)
    ensures forall call <- EncodedCalls(enc, calls) :: Proper(n, [], call)
  {
    var encoded := EncodedCalls(enc, calls);
    forall i | 0 <= i < |encoded|
      ensures Proper(n, [], encoded[i])
    {
      assert calls[i] in calls;
    }
  }

  lemma DecodeEncoded(enc: Node -> Bytes, dec: Bytes -> Node, blobs: Blobs)
    requires forall n :: dec(enc(n)) == n
    ensures DecodedBlobs(dec, EncodedBlobs(enc, blobs)) == blobs
  {
  }
}

/** What a client of the vORAM sees: a map from idents to blobs, a cache of blobs that are being
    worked on, and a trace of the paths that were read.

    `Voram` is proved to implement these operations; `Hirb` is built on them. */
module BlobMap {

  import opened Common

  type Ident = nat

  /** What a client asks of the vORAM. */
  datatype Call<B> =
    | FetchCall(id: Ident, next: Ident)
    | CreateReadCall(decoy: Ident, id: Ident, blob: B)
    | CreateCall(id: Ident, blob: B)
    | DummyCall(decoy: Ident)
    | SetCall(id: Ident, blob: B)
    | RemoveCall(id: Ident)
    | FinalizeCall

  /** `blobs` is the logical contents.  `cached` are the idents whose blobs have been fetched or
      created since the last `Finalize`.  `open` are the idents whose paths were read since the
      last write-back and `rounds` the earlier batches, so the rounds followed by `open` are all
      the paths an observer has seen being read, in order.  `calls` are the calls that led here. */
  datatype Store<B> = Store(blobs: map<Ident, B>, cached: set<Ident>,
                            rounds: seq<seq<Ident>>, open: seq<Ident>, calls: seq<Call<B>>)
  {
    /** All path reads so far. */
    ghost function Reads(): seq<Ident> {
      Flatten(rounds) + open
    }

    /** Fetching a cached ident does nothing; otherwise its path is read and the blob renamed. */
    function Fetch(id: Ident, next: Ident): Store<B>
      requires id in blobs
    {
      if id in cached then this
      else
        this.(blobs := (blobs - {id})[next := blobs[id]], cached := cached + {next}, open := open + [id],
              calls := calls + [FetchCall(id, next)])
    }

    /** A new blob; `decoy` is the random ident whose path is read to hide the creation. */
    function CreateRead(decoy: Ident, id: Ident, blank: B): Store<B> {
      this.(blobs := blobs[id := blank], cached := cached + {id}, open := open + [decoy],
            calls := calls + [CreateReadCall(decoy, id, blank)])
    }

    /** A new blob, created without reading a path. */
    function Create(id: Ident, blank: B): Store<B> {
      this.(blobs := blobs[id := blank], cached := cached + {id}, calls := calls + [CreateCall(id, blank)])
    }

    /** Reads the path of a random ident and leaves everything as it is. */
    function DummyOp(decoy: Ident): Store<B> {
      this.(open := open + [decoy], calls := calls + [DummyCall(decoy)])
    }

    function Set(id: Ident, b: B): Store<B>
      requires id in cached
    {
      this.(blobs := blobs[id := b], calls := calls + [SetCall(id, b)])
    }

    function Remove(id: Ident): Store<B>
      requires id in cached
    {
      this.(blobs := blobs - {id}, cached := cached - {id}, calls := calls + [RemoveCall(id)])
    }

    /** Writes back every bucket that was read; nothing is written when nothing was read. */
    function Finalize(): Store<B> {
      var done := this.(cached := {}, calls := calls + [FinalizeCall]);
      if open == [] then done else done.(rounds := rounds + [open], open := [])
    }

    /** Nothing is being worked on. */
    ghost predicate Quiet() {
      cached == {} && open == []
    }

    /** The paths read so far belong to idents that are all different and all dead: an observer has
        seen a list of independent random choices.  `issued` are the idents generated so far. */
    ghost predicate Oblivious(issued: set<Ident>) {
      && cached <= blobs.Keys <= issued
      && NoDup(Reads())
      && (forall id <- Reads() :: id in issued && id !in blobs)
    }

    /** An ident that was generated but not used yet. */
    ghost predicate Reserved(issued: set<Ident>, id: Ident) {
      id in issued && id !in blobs && id !in Reads()
    }
  }

  /** The state before the first call. */
  function Empty<B>(): Store<B> {
    Store(map[], {}, [], [], [])
  }

  /** The call does not end in an error, does something, and takes a name that is free. */
  ghost predicate Legal<B>(st: Store<B>, call: Call<B>) {
    match call
    case FetchCall(id, next) => id in st.blobs && id !in st.cached && next !in st.blobs
    case CreateReadCall(_, id, _) => id !in st.blobs
    case CreateCall(id, _) => id !in st.blobs
    case SetCall(id, _) => id in st.cached
    case RemoveCall(id) => id in st.cached
    case DummyCall(_) => true
    case FinalizeCall => true
  }

  ghost function Do<B>(st: Store<B>, call: Call<B>): (r: Store<B>)
    requires Legal(st, call)
    ensures r.calls == st.calls + [call]
  {
    match call
    case FetchCall(id, next) => st.Fetch(id, next)
    case CreateReadCall(decoy, id, blob) => st.CreateRead(decoy, id, blob)
    case CreateCall(id, blob) => st.Create(id, blob)
    case DummyCall(decoy) => st.DummyOp(decoy)
    case SetCall(id, blob) => st.Set(id, blob)
    case RemoveCall(id) => st.Remove(id)
    case FinalizeCall => st.Finalize()
  }

  /** What a list of calls leads to, if all of them are legal. */
  ghost function Replay<B>(calls: seq<Call<B>>): (r: Option<Store<B>>)
    ensures r.Some? ==> r.value.calls == calls
  {
    if calls == [] then Some(Empty())
    else
      var before, call := Replay(calls[..|calls| - 1]), calls[|calls| - 1];
      if before.Some? && Legal(before.value, call) then Some(Do(before.value, call)) else None
  }

  /** The state is the one that its calls lead to. */
  ghost predicate Recorded<B>(st: Store<B>) {
    Replay(st.calls) == Some(st)
  }

  lemma RecordedNext<B>(st: Store<B>, call: Call<B>)
    requires Recorded(st) && Legal(st, call)
    ensures Recorded(Do(st, call))
  {
    assert (st.calls + [call])[..|st.calls|] == st.calls;
  }

  ghost function Flatten(rounds: seq<seq<Ident>>): seq<Ident> {
    if rounds == [] then [] else Flatten(rounds[..|rounds| - 1]) + rounds[|rounds| - 1]
  }

  /** `after` has made h rounds of `width` path reads each since `before`, and no other read. */
  ghost predicate RoundsBy<B>(before: Store<B>, after: Store<B>, h: nat, width: nat) {
    && after.open == []
    && |after.rounds| == |before.rounds| + h
    && after.rounds[..|before.rounds|] == before.rounds
    && forall i :: |before.rounds| <= i < |after.rounds| ==> |after.rounds[i]| == width
  }

  // ---------------------------------------------------------------- obliviousness is kept

  lemma FetchOblivious<B>(st: Store<B>, issued: set<Ident>, id: Ident, next: Ident)
    requires st.Oblivious(issued) && id in st.blobs && st.Reserved(issued, next)
    ensures st.Fetch(id, next).Oblivious(issued)
    ensures id !in st.cached ==> st.Fetch(id, next).Reads() == st.Reads() + [id]
  {
    assert id !in st.cached ==> Flatten(st.rounds) + (st.open + [id]) == st.Reads() + [id];
  }

  lemma DummyOblivious<B>(st: Store<B>, issued: set<Ident>, decoy: Ident)
    requires st.Oblivious(issued) && st.Reserved(issued, decoy)
    ensures st.DummyOp(decoy).Oblivious(issued)
    ensures st.DummyOp(decoy).Reads() == st.Reads() + [decoy]
  {
    assert Flatten(st.rounds) + (st.open + [decoy]) == st.Reads() + [decoy];
  }

  lemma CreateOblivious<B>(st: Store<B>, issued: set<Ident>, id: Ident, blank: B)
    requires st.Oblivious(issued) && st.Reserved(issued, id)
    ensures st.Create(id, blank).Oblivious(issued)
    ensures st.Create(id, blank).Reads() == st.Reads()
  {
  }

  lemma CreateReadOblivious<B>(st: Store<B>, issued: set<Ident>, decoy: Ident, id: Ident, blank: B)
    requires st.Oblivious(issued) && st.Reserved(issued, decoy) && st.Reserved(issued, id) && decoy != id
    ensures st.CreateRead(decoy, id, blank).Oblivious(issued)
    ensures st.CreateRead(decoy, id, blank).Reads() == st.Reads() + [decoy]
  {
    DummyOblivious(st, issued, decoy);
    CreateOblivious(st.DummyOp(decoy), issued, id, blank);
  }

  lemma FinalizeOblivious<B>(st: Store<B>, issued: set<Ident>)
    requires st.Oblivious(issued)
    ensures st.Finalize().Oblivious(issued)
    ensures st.Finalize().Reads() == st.Reads()
  {
    if st.open != [] {
      assert (st.rounds + [st.open])[..|st.rounds|] == st.rounds;
      assert st.Finalize().Reads() == Flatten(st.rounds) + st.open + [];
    }
  }
}

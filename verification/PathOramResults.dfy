/** What Path ORAM is for: it behaves like an array of blocks, and loses none. */
module PathOramResults {

  import opened Common
  import opened Bits
  import opened PathOramTree
  import opened PathOrams

  /** A block is in exactly one place if it was ever written: the stash, or one bucket on the way to
      its current leaf.  A block that was never written is nowhere. */
  lemma OnePlace(n: nat, stash: seq<Block>, storage: seq<seq<Block>>, pos: seq<nat>, contents: map<nat, Data>,
                 homes: Homes, i: nat)
    requires StashOk(stash, contents, homes) && TreeOk(n, storage, {}, pos, contents, homes)
    requires contents.Keys == homes.Keys
    ensures i !in contents ==> i !in Ids(stash) && forall k :: 0 <= k < |storage| ==> i !in Ids(storage[k])
    ensures i in contents && i in Ids(stash) ==> forall k :: 0 <= k < |storage| ==> i !in Ids(storage[k])
    ensures i in contents && i !in Ids(stash) ==>
              exists k :: 0 <= k < |storage| && i in Ids(storage[k]) && i < |pos| && OnWay(n, pos[i], k)
                          && forall m :: 0 <= m < |storage| && m != k ==> i !in Ids(storage[m])
    ensures Single(stash) && forall k :: 0 <= k < |storage| ==> Single(storage[k])
  {
    hide Ids, OnWay, Genuine;
    forall k | 0 <= k < |storage|
      ensures BucketOk(n, storage[k], k, pos, contents, homes)
    {
    }
    if i in contents && i !in Ids(stash) {
      var k := homes[i].value;
      assert BucketOk(n, storage[k], k, pos, contents, homes);
      assert i in Ids(storage[k]);
    }
  }

  // ---------------------------------------------------------------- runs

  datatype Access = Read(index: nat) | Write(index: nat, data: Data)

  function Apply(blocks: map<nat, Data>, a: Access): (map<nat, Data>, Option<Data>) {
    match a
    case Read(i) => (blocks, if i in blocks then Some(blocks[i]) else None)
    case Write(i, data) => (blocks[i := data], None)
  }

  function ApplyAll(blocks: map<nat, Data>, run: seq<Access>): map<nat, Data> {
    if run == [] then blocks else Apply(ApplyAll(blocks, run[..|run| - 1]), run[|run| - 1]).0
  }

  /** A run of accesses, each with a random leaf, answers like an array of blocks. */
  method Run(oram: PathOram, run: seq<Access>, draws: seq<nat>) returns (answers: seq<Option<Data>>)
    requires oram.Valid()
    requires |draws| == |run|
    requires forall k :: 0 <= k < |run| ==> run[k].index < oram.numBlocks && draws[k] < Pow2(oram.numLevels - 1)
    modifies oram, oram.positionMap, oram.storage
    ensures oram.Valid()
    ensures oram.contents == ApplyAll(old(oram.contents), run)
    ensures |answers| == |run|
    ensures forall k :: 0 <= k < |run| && run[k].Read? ==>
              answers[k] == Apply(ApplyAll(old(oram.contents), run[..k]), run[k]).1
  {
    hide PathOram.Holds, PathOram.Optimal, Pow2;
    answers := [];
    assert run[..0] == [];
    for k := 0 to |run|
      invariant oram.Valid()
      invariant oram.contents == ApplyAll(old(oram.contents), run[..k])
      invariant |answers| == k
      invariant forall j :: 0 <= j < k && run[j].Read? ==>
                  answers[j] == Apply(ApplyAll(old(oram.contents), run[..j]), run[j]).1
    {
      assert run[..k + 1][..k] == run[..k];
      var answer := oram.Access(if run[k].Read? then READ else WRITE, run[k].index,
                                if run[k].Read? then [] else run[k].data, draws[k]);
      answers := answers + [answer];
    }
    assert run[..|run|] == run;
  }

  /** Reading an index gives the block written there last. */
  lemma {:induction false} LastWritten(blocks: map<nat, Data>, run: seq<Access>, j: nat, i: nat)
    requires j < |run| && run[j].Write? && run[j].index == i
    requires forall m :: j < m < |run| ==> run[m].Read? || run[m].index != i
    ensures Apply(ApplyAll(blocks, run), Read(i)).1 == Some(run[j].data)
    decreases |run|
  {
    if j < |run| - 1 {
      LastWritten(blocks, run[..|run| - 1], j, i);
    }
  }
}

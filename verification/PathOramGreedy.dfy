/** Evicting from the leaf up, and taking as many blocks as fit at each level, leaves as few blocks as
    any way to place blocks on the path would.  `ids` are the blocks to place, `leaf` the path. */
module PathOramGreedy {

  import opened Common
  import opened Bits
  import opened PathOramTree

  /** The blocks that may be placed at a level: their paths meet the evicted one there. */
  ghost function Deep(n: nat, pos: seq<nat>, leaf: nat, ids: set<nat>, level: nat): set<nat> {
    set i <- ids | i < |pos| && level < n && P(n, pos[i], level) == P(n, leaf, level)
  }

  ghost function AtLevel(at: map<nat, nat>, level: nat): set<nat> {
    set i <- at | at[i] == level
  }

  /** Blocks at levels where they may be, and no more than fit. */
  ghost predicate Legal(n: nat, size: nat, pos: seq<nat>, leaf: nat, ids: set<nat>, at: map<nat, nat>) {
    && at.Keys <= ids
    && (forall i <- at :: at[i] < n && i in Deep(n, pos, leaf, ids, at[i]))
    && (forall level :: 0 <= level < n ==> |AtLevel(at, level)| <= size)
  }

  /** No legal placement leaves fewer blocks than `left`. */
  ghost predicate Least(n: nat, size: nat, pos: seq<nat>, leaf: nat, ids: set<nat>, left: nat) {
    forall at :: Legal(n, size, pos, leaf, ids, at) ==> left <= |ids| - |at.Keys|
  }

  lemma {:induction false} DeepAbove(n: nat, pos: seq<nat>, leaf: nat, ids: set<nat>, k: nat, l: nat)
    requires k <= l <= n
    ensures Deep(n, pos, leaf, ids, l) <= Deep(n, pos, leaf, ids, k) <= ids
    decreases l - k
  {
    if k < l {
      DeepAbove(n, pos, leaf, ids, k, l - 1);
      forall i | i in Deep(n, pos, leaf, ids, l)
        ensures i in Deep(n, pos, leaf, ids, l - 1)
      {
        MeetAbove(n, pos[i], leaf, l);
      }
    }
  }

  // ---------------------------------------------------------------- every placement

  ghost function Above(at: map<nat, nat>, m: nat): set<nat> {
    set i <- at | at[i] < m
  }

  /** Only so many blocks fit above a level. */
  lemma {:induction false} AboveFits(n: nat, size: nat, pos: seq<nat>, leaf: nat, ids: set<nat>, at: map<nat, nat>,
                                     m: nat)
    requires Legal(n, size, pos, leaf, ids, at) && m <= n
    ensures |Above(at, m)| <= size * m
  {
    if m > 0 {
      AboveFits(n, size, pos, leaf, ids, at, m - 1);
      assert Above(at, m) == Above(at, m - 1) + AtLevel(at, m - 1);
      assert size * m == size * (m - 1) + size;
    } else {
      assert Above(at, 0) == {};
    }
  }

  /** The blocks that only fit above a level, less the room there, are left by every placement. */
  lemma LegalLeaves(n: nat, size: nat, pos: seq<nat>, leaf: nat, ids: set<nat>, at: map<nat, nat>, m: nat)
    requires Legal(n, size, pos, leaf, ids, at) && m <= n
    ensures |ids - Deep(n, pos, leaf, ids, m)| - size * m <= |ids| - |at.Keys|
  {
    var shallow := ids - Deep(n, pos, leaf, ids, m);
    forall i | i in shallow && i in at
      ensures i in Above(at, m)
    {
      if at[i] >= m {
        DeepAbove(n, pos, leaf, ids, m, at[i]);
      }
    }
    AboveFits(n, size, pos, leaf, ids, at, m);
    LeaveCount(ids, shallow, at.Keys, Above(at, m));
  }

  lemma LeaveCount(ids: set<nat>, shallow: set<nat>, placed: set<nat>, above: set<nat>)
    requires shallow <= ids && placed <= ids && shallow * placed <= above
    ensures |shallow| - |above| <= |ids| - |placed|
  {
    SubsetSize(shallow * placed, above);
    SubsetSize(shallow * placed, shallow);
    assert shallow - shallow * placed == shallow - placed;
    SubsetSize(shallow - placed, ids - placed);
    SubsetSize(placed, ids);
  }

  // ---------------------------------------------------------------- the greedy one

  /** After the levels from l on, the blocks that fit only above are untouched, and of the others as
      many are left as did not fit between level l and some level m. */
  ghost predicate Evicted(n: nat, size: nat, pos: seq<nat>, leaf: nat, ids: set<nat>, left: set<nat>, l: nat) {
    && left <= ids && l <= n
    && ids - Deep(n, pos, leaf, ids, l) <= left
    && exists m :: l <= m <= n && LeftBetween(n, size, pos, leaf, ids, left, l, m)
  }

  ghost predicate LeftBetween(n: nat, size: nat, pos: seq<nat>, leaf: nat, ids: set<nat>, left: set<nat>, l: nat,
                              m: nat)
    requires l <= m
  {
    |left * Deep(n, pos, leaf, ids, l)|
    == |Deep(n, pos, leaf, ids, l) - Deep(n, pos, leaf, ids, m)| - size * (m - l)
  }

  lemma EvictStart(n: nat, size: nat, pos: seq<nat>, leaf: nat, ids: set<nat>)
    ensures Evicted(n, size, pos, leaf, ids, ids, n)
  {
    assert Deep(n, pos, leaf, ids, n) == {};
    assert LeftBetween(n, size, pos, leaf, ids, ids, n, n);
  }

  /** The greedy choice: as many blocks as fit at a level, or all that may be there. */
  ghost predicate Takes(n: nat, size: nat, pos: seq<nat>, leaf: nat, left: set<nat>, k: nat, taken: set<nat>) {
    && taken <= Deep(n, pos, leaf, left, k)
    && |taken| <= size
    && (|taken| == size || taken == Deep(n, pos, leaf, left, k))
  }

  /** One level: as many as fit, or all there are, are taken of the blocks that may be there. */
  lemma EvictLevel(n: nat, size: nat, pos: seq<nat>, leaf: nat, ids: set<nat>, left: set<nat>, k: nat, taken: set<nat>)
    requires k < n && Evicted(n, size, pos, leaf, ids, left, k + 1)
    requires Takes(n, size, pos, leaf, left, k, taken)
    ensures Evicted(n, size, pos, leaf, ids, left - taken, k)
  {
    hide Deep;
    DeepPart(n, pos, leaf, ids, left, k);
    EvictStep(n, size, pos, leaf, ids, left, k, taken);
  }

  lemma EvictStep(n: nat, size: nat, pos: seq<nat>, leaf: nat, ids: set<nat>, left: set<nat>, k: nat, taken: set<nat>)
    requires k < n && Evicted(n, size, pos, leaf, ids, left, k + 1)
    requires taken <= left * Deep(n, pos, leaf, ids, k)
    requires |taken| == size || taken == left * Deep(n, pos, leaf, ids, k)
    ensures Evicted(n, size, pos, leaf, ids, left - taken, k)
  {
    hide Deep;
    var here, below := Deep(n, pos, leaf, ids, k), Deep(n, pos, leaf, ids, k + 1);
    DeepAbove(n, pos, leaf, ids, k, k + 1);
    var left' := left - taken;
    assert ids - here <= left';
    if taken == left * here {
      assert left' * here == {} && here - here == {};
      assert LeftBetween(n, size, pos, leaf, ids, left', k, k);
    } else {
      var m :| k + 1 <= m <= n && LeftBetween(n, size, pos, leaf, ids, left, k + 1, m);
      DeepAbove(n, pos, leaf, ids, k + 1, m);
      LevelCount(ids, left, here, below, Deep(n, pos, leaf, ids, m), taken);
      assert size * (m - k) == size * (m - (k + 1)) + size;
      assert LeftBetween(n, size, pos, leaf, ids, left', k, m);
    }
  }

  lemma LevelCount(ids: set<nat>, left: set<nat>, here: set<nat>, below: set<nat>, deepest: set<nat>, taken: set<nat>)
    requires deepest <= below <= here <= ids && ids - below <= left && taken <= left * here
    ensures |(left - taken) * here| == |left * below| + |here - below| - |taken|
    ensures |here - deepest| == |here - below| + |below - deepest|
  {
    assert left * here == left * below + (here - below);
    assert (left - taken) * here == left * here - taken;
    SubsetSize(taken, left * here);
    assert here - deepest == (here - below) + (below - deepest);
  }

  /** What is left after the root level is the least possible. */
  lemma EvictEnd(n: nat, size: nat, pos: seq<nat>, leaf: nat, ids: set<nat>, left: set<nat>)
    requires n > 0 && leaf < Pow2(n - 1) && (forall i :: 0 <= i < |pos| ==> pos[i] < Pow2(n - 1))
    requires forall i <- ids :: i < |pos|
    requires Evicted(n, size, pos, leaf, ids, left, 0)
    ensures Least(n, size, pos, leaf, ids, |left|)
  {
    forall i | i in ids
      ensures i in Deep(n, pos, leaf, ids, 0)
    {
      RootMeets(n, pos[i], leaf);
    }
    assert Deep(n, pos, leaf, ids, 0) == ids;
    assert left * ids == left;
    var m :| 0 <= m <= n && LeftBetween(n, size, pos, leaf, ids, left, 0, m);
    assert |left| == |ids - Deep(n, pos, leaf, ids, m)| - size * m;
    forall at | Legal(n, size, pos, leaf, ids, at)
      ensures |left| <= |ids| - |at.Keys|
    {
      LegalLeaves(n, size, pos, leaf, ids, at, m);
    }
  }

  // ---------------------------------------------------------------- choosing blocks

  /** Of the blocks seen so far, those whose paths meet the bucket `pxl` at a level are in the list. */
  ghost predicate Chosen(n: nat, pos: seq<nat>, pxl: nat, level: nat, seen: seq<Block>, bucket: seq<Block>) {
    && level < n && Single(bucket)
    && (forall b <- bucket :: b.Block? && b in seen && b.index < |pos| && P(n, pos[b.index], level) == pxl)
    && (forall b <- seen :: b.Block? && b.index < |pos| && P(n, pos[b.index], level) == pxl ==> b in bucket)
  }

  lemma ChosenNone(n: nat, pos: seq<nat>, pxl: nat, level: nat, stash: seq<Block>)
    requires level < n
    ensures Chosen(n, pos, pxl, level, stash[..0], [])
  {
  }

  lemma ChosenNext(n: nat, pos: seq<nat>, pxl: nat, level: nat, stash: seq<Block>, j: nat, bucket: seq<Block>)
    requires j < |stash| && Chosen(n, pos, pxl, level, stash[..j], bucket)
    requires Single(stash) && stash[j].Block? && stash[j].index < |pos|
    ensures if P(n, pos[stash[j].index], level) == pxl
            then Chosen(n, pos, pxl, level, stash[..j + 1], bucket + [stash[j]])
            else Chosen(n, pos, pxl, level, stash[..j + 1], bucket)
  {
    hide P;
    var b := stash[j];
    assert stash[..j + 1] == stash[..j] + [b];
    forall x | x in bucket
      ensures x.index != b.index
    {
      var m :| 0 <= m < j && stash[..j][m] == x;
      assert stash[m] == x;
    }
  }

  lemma ChosenDeep(n: nat, size: nat, pos: seq<nat>, leaf: nat, level: nat, stash: seq<Block>, j: nat,
                   bucket: seq<Block>)
    requires j <= |stash| && level < n && Chosen(n, pos, P(n, leaf, level), level, stash[..j], bucket)
    requires (forall b <- stash :: b.Block?) && |bucket| <= size && (j == |stash| || |bucket| == size)
    ensures Takes(n, size, pos, leaf, Ids(stash), level, Ids(bucket))
    ensures forall b <- bucket :: b.Block? && b in stash
    ensures Single(bucket)
  {
    hide P, Single;
    assert j == |stash| ==> stash[..j] == stash;
    SingleSize(bucket);
  }

  lemma TakesInside(n: nat, size: nat, pos: seq<nat>, leaf: nat, left: set<nat>, k: nat, taken: set<nat>)
    requires Takes(n, size, pos, leaf, left, k, taken) && k < n
    ensures taken <= left
    ensures forall i <- taken :: i < |pos| && OnWay(n, pos[i], P(n, leaf, k))
  {
    hide P;
  }

  lemma DeepPart(n: nat, pos: seq<nat>, leaf: nat, ids: set<nat>, part: set<nat>, level: nat)
    requires part <= ids
    ensures Deep(n, pos, leaf, part, level) == part * Deep(n, pos, leaf, ids, level)
  {
    hide P;
  }

  // ---------------------------------------------------------------- the placement that is made

  /** What is not left was placed legally at the levels from l on. */
  ghost predicate PlacedFrom(n: nat, size: nat, pos: seq<nat>, leaf: nat, ids: set<nat>, left: set<nat>,
                             at: map<nat, nat>, l: nat) {
    && Legal(n, size, pos, leaf, ids, at)
    && at.Keys == ids - left && left <= ids
    && forall i <- at :: l <= at[i]
  }

  ghost function Place(at: map<nat, nat>, taken: set<nat>, l: nat): map<nat, nat> {
    at + map i | i in taken :: l
  }

  lemma PlacedNone(n: nat, size: nat, pos: seq<nat>, leaf: nat, ids: set<nat>)
    ensures PlacedFrom(n, size, pos, leaf, ids, ids, map[], n)
  {
    forall l | 0 <= l < n
      ensures AtLevel(map[], l) == {}
    {
    }
  }

  lemma PlacedInside(n: nat, size: nat, pos: seq<nat>, leaf: nat, ids: set<nat>, left: set<nat>,
                     at: map<nat, nat>, l: nat)
    requires PlacedFrom(n, size, pos, leaf, ids, left, at, l)
    ensures left <= ids && Legal(n, size, pos, leaf, ids, at) && at.Keys == ids - left
  {
  }

  lemma PlacedNext(n: nat, size: nat, pos: seq<nat>, leaf: nat, ids: set<nat>, left: set<nat>, at: map<nat, nat>,
                   l: nat, taken: set<nat>)
    requires PlacedFrom(n, size, pos, leaf, ids, left, at, l + 1) && l < n
    requires Takes(n, size, pos, leaf, left, l, taken)
    ensures PlacedFrom(n, size, pos, leaf, ids, left - taken, Place(at, taken, l), l)
  {
    hide Deep;
    DeepPart(n, pos, leaf, ids, left, l);
    PlacedStep(n, size, pos, leaf, ids, left, at, l, taken);
  }

  lemma PlacedStep(n: nat, size: nat, pos: seq<nat>, leaf: nat, ids: set<nat>, left: set<nat>, at: map<nat, nat>,
                   l: nat, taken: set<nat>)
    requires PlacedFrom(n, size, pos, leaf, ids, left, at, l + 1) && l < n
    requires taken <= left * Deep(n, pos, leaf, ids, l) && |taken| <= size
    ensures PlacedFrom(n, size, pos, leaf, ids, left - taken, Place(at, taken, l), l)
  {
    hide Deep, Place, AtLevel;
    var at' := Place(at, taken, l);
    PlaceLevels(at, taken, l);
    forall k | 0 <= k < n
      ensures |AtLevel(at', k)| <= size
    {
      NotYet(at, k, l);
    }
  }

  lemma PlaceLevels(at: map<nat, nat>, taken: set<nat>, l: nat)
    requires forall i <- at :: l < at[i] && i !in taken
    ensures var at' := Place(at, taken, l);
            && at'.Keys == at.Keys + taken
            && (forall i <- at' :: at'[i] == if i in taken then l else at[i])
            && (forall k :: AtLevel(at', k) == if k == l then taken else AtLevel(at, k))
  {
    var at' := Place(at, taken, l);
    assert at'.Keys == at.Keys + taken;
  }

  lemma NotYet(at: map<nat, nat>, k: nat, l: nat)
    requires forall i <- at :: l < at[i]
    ensures k <= l ==> AtLevel(at, k) == {}
  {
  }
}

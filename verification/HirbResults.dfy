/** What the HIRB is for: the shape of the tree says nothing about how it came to be, no blob is
    lost or left over, and any run of operations answers like a plain dictionary. */
module HirbResults {
  import opened Common
  import opened HirbShape
  import opened BlobMap
  import opened HirbStore
  import opened HirbNodes
  import opened HirbTower
  import opened HirbTree

  // ---------------------------------------------------------------- history independence

  /** The tree in the store with its idents erased. */
  ghost function Erase(w: Blobs, c: Ident, l: nat): Tree
    decreases l, 0
  {
    if c !in w || w[c].Blank? || |w[c].lhashes| != |w[c].values| then Tree([], [])
    else
      var n := w[c];
      Tree(seq(|n.lhashes|, i requires 0 <= i < |n.lhashes| => Item(n.lhashes[i], n.values[i])),
           if l == 0 || n.Leaf? then [] else EraseAll(w, n.children, l - 1))
  }

  ghost function EraseAll(w: Blobs, cs: seq<Ident>, l: nat): seq<Tree>
    decreases l, |cs| + 1
  {
    if cs == [] then [] else [Erase(w, cs[0], l)] + EraseAll(w, cs[1..], l)
  }

  /** A subtree in the store is the one tree that its height and its items allow. */
  lemma {:induction false} ErasedIsCanon(d: Draws, w: Blobs, c: Ident, l: nat, s: seq<Item>)
    requires Rep(d, w, c, l, s)
    ensures Erase(w, c, l) == Canon(d, l, s)
    decreases l, 0
  {
    if l == 0 {
      LeafSeps(d, s);
    } else {
      ErasedAllCanon(d, w, w[c].children, l - 1, Segs(d, l, s));
    }
  }

  lemma {:induction false} ErasedAllCanon(d: Draws, w: Blobs, cs: seq<Ident>, l: nat, segs: seq<seq<Item>>)
    requires RepAll(d, w, cs, l, segs)
    ensures EraseAll(w, cs, l) == seq(|segs|, i requires 0 <= i < |segs| => Canon(d, l, segs[i]))
    decreases l, |cs| + 1
  {
    if cs != [] {
      ErasedIsCanon(d, w, cs[0], l, segs[0]);
      ErasedAllCanon(d, w, cs[1..], l, segs[1..]);
    }
  }

  /** Two trees of the same height with the same dictionary are the same tree, whatever sequences
      of operations or bulk builds they came from. */
  lemma HistoryIndependence(d: Draws, h: nat, w1: Blobs, s1: seq<Item>, w2: Blobs, s2: seq<Item>)
    requires Whole(d, w1, h, s1) && Sorted(s1)
    requires Whole(d, w2, h, s2) && Sorted(s2)
    requires AsMap(s1) == AsMap(s2)
    ensures Erase(w1, ROOT, h) == Erase(w2, ROOT, h)
  {
    SameItems(s1, s2);
    SameItems(s2, s1);
    SortedUnique(s1, s2);
    ErasedIsCanon(d, w1, ROOT, h, s1);
    ErasedIsCanon(d, w2, ROOT, h, s2);
  }

  lemma SameItems(s1: seq<Item>, s2: seq<Item>)
    requires Sorted(s1) && Sorted(s2) && AsMap(s1) == AsMap(s2)
    ensures forall x :: x in s1 ==> x in s2
  {
    forall x | x in s1 ensures x in s2 {
      var i :| 0 <= i < |s1| && s1[i] == x;
      AsMapHas(s1, x.hash);
      AsMapHas(s2, x.hash);
      var j :| 0 <= j < |s2| && s2[j].hash == x.hash;
      assert s2[j] == x;
    }
  }

  // ---------------------------------------------------------------- no leaked and no dangling blobs

  /** How often each ident is named as a child in the subtree at c. */
  ghost function Names(w: Blobs, c: Ident, l: nat): multiset<Ident>
    decreases l, 0
  {
    if l == 0 || c !in w || !w[c].Internal? then multiset{} else NamesAll(w, w[c].children, l - 1)
  }

  ghost function NamesAll(w: Blobs, cs: seq<Ident>, l: nat): multiset<Ident>
    decreases l, |cs| + 1
  {
    if cs == [] then multiset{} else multiset{cs[0]} + Names(w, cs[0], l) + NamesAll(w, cs[1..], l)
  }

  lemma {:induction false} NamedOnce(d: Draws, w: Blobs, c: Ident, l: nat, s: seq<Item>)
    requires Rep(d, w, c, l, s)
    ensures Names(w, c, l) == multiset(Own(w, c, l) - {c}) && c in Own(w, c, l)
    decreases l, 0
  {
    if l > 0 {
      AllNamedOnce(d, w, w[c].children, l - 1, Segs(d, l, s));
      assert Own(w, c, l) - {c} == OwnAll(w, w[c].children, l - 1);
    }
  }

  lemma {:induction false} AllNamedOnce(d: Draws, w: Blobs, cs: seq<Ident>, l: nat, segs: seq<seq<Item>>)
    requires RepAll(d, w, cs, l, segs)
    ensures NamesAll(w, cs, l) == multiset(OwnAll(w, cs, l))
    decreases l, |cs| + 1
  {
    if cs != [] {
      NamedOnce(d, w, cs[0], l, segs[0]);
      AllNamedOnce(d, w, cs[1..], l, segs[1..]);
      assert multiset{cs[0]} + multiset(Own(w, cs[0], l) - {cs[0]}) == multiset(Own(w, cs[0], l));
    }
  }

  /** Every blob in the vORAM is named by exactly one node, and every child that is named is there. */
  lemma NoLeakNoDangle(d: Draws, w: Blobs, h: nat, s: seq<Item>)
    requires Whole(d, w, h, s)
    ensures Names(w, ROOT, h) == multiset(w.Keys - {ROOT})
  {
    NamedOnce(d, w, ROOT, h, s);
  }

  // ---------------------------------------------------------------- whole runs

  datatype Op = Put(h: Hash, v: Value) | Find(h: Hash) | Del(h: Hash)

  /** What a plain dictionary does. */
  ghost function Apply(m: map<Hash, Value>, op: Op): map<Hash, Value> {
    match op
    case Put(h, v) => m[h := v]
    case Find(h) => m
    case Del(h) => m - {h}
  }

  ghost function ApplyAll(m: map<Hash, Value>, ops: seq<Op>): map<Hash, Value> {
    if ops == [] then m else Apply(ApplyAll(m, ops[..|ops| - 1]), ops[|ops| - 1])
  }

  /** The deletions of a run only concern hashes that are there. */
  ghost predicate DeletesPresent(m: map<Hash, Value>, ops: seq<Op>) {
    forall i :: 0 <= i < |ops| && ops[i].Del? ==> ops[i].h in ApplyAll(m, ops[..i])
  }

  /** The rounds that came after those of `before` are all of two reads. */
  ghost predicate PairsSince(before: seq<seq<Ident>>, now: seq<seq<Ident>>) {
    before <= now && forall i :: |before| <= i < |now| ==> |now[i]| == 2
  }

  /** One more than the largest size that an assignment of a run finds, or 0 if there is none. */
  ghost function Peak(m: map<Hash, Value>, ops: seq<Op>): nat {
    if ops == [] then 0
    else
      var front := ops[..|ops| - 1];
      var size, peak := |ApplyAll(m, front)|, Peak(m, front);
      if ops[|ops| - 1].Put? && size + 1 > peak then size + 1 else peak
  }

  /** The height is the least one, from h0 on, whose threshold is not below the peak; g0 was the threshold
      at height h0. */
  ghost predicate Risen(b: nat, h0: nat, g0: nat, peak: nat, h: nat, g: nat) {
    && h >= h0 && g == g0 * Pow(b, h - h0) && g >= 1
    && peak <= g
    && (h > h0 ==> g0 * Pow(b, h - h0 - 1) < peak)
  }

  lemma RisenNext(b: nat, h0: nat, g0: nat, peak: nat, h: nat, g: nat, size: nat)
    requires Risen(b, h0, g0, peak, h, g) && b >= 2 && size <= g
    ensures var peak' := if size + 1 > peak then size + 1 else peak;
            if size == g then Risen(b, h0, g0, peak', h + 1, g * b) else Risen(b, h0, g0, peak', h, g)
  {
    PowNext(g0, b, h - h0);
    hide Pow;
    assert h + 1 - h0 == h - h0 + 1;
    assert g * b >= g * 2;
  }

  lemma PowNext(g: nat, b: nat, k: nat)
    ensures g * Pow(b, k + 1) == g * Pow(b, k) * b
  {
    assert g * (Pow(b, k) * b) == g * Pow(b, k) * b;
  }

  /** One operation of a run. */
  lemma RisenStep(b: nat, h0: nat, g0: nat, m: map<Hash, Value>, ops: seq<Op>, i: nat,
                  h: nat, g: nat, h': nat, g': nat)
    requires i < |ops| && b >= 2
    requires var size, grows := |ApplyAll(m, ops[..i])|, ops[i].Put? && |ApplyAll(m, ops[..i])| == g;
             && size <= g
             && h' == h + (if grows then 1 else 0)
             && g' == g * if grows then b else 1
    requires Risen(b, h0, g0, Peak(m, ops[..i]), h, g)
    ensures Risen(b, h0, g0, Peak(m, ops[..i + 1]), h', g')
  {
    hide Risen, ApplyAll;
    assert ops[..i + 1][..i] == ops[..i];
    RisenNext(b, h0, g0, Peak(m, ops[..i]), h, g, |ApplyAll(m, ops[..i])|);
  }

  /** When all operations insert new hashes, the peak is their number. */
  lemma {:induction false} PeakInserts(ops: seq<Op>)
    requires forall i :: 0 <= i < |ops| ==> ops[i].Put?
    requires forall i, j :: 0 <= i < j < |ops| ==> ops[i].h != ops[j].h
    ensures Peak(map[], ops) == |ops| == |ApplyAll(map[], ops)|
    ensures forall x :: x in ApplyAll(map[], ops) <==> exists i :: 0 <= i < |ops| && ops[i].h == x
  {
    if ops != [] {
      var n := |ops| - 1;
      var front := ops[..n];
      PeakInserts(front);
      var m := ApplyAll(map[], front);
      assert ops[n].h !in m;
      assert m[ops[n].h := ops[n].v].Keys == m.Keys + {ops[n].h};
      assert |m[ops[n].h := ops[n].v].Keys| == |m| + 1;
      forall x | x in ApplyAll(map[], ops)
        ensures exists i :: 0 <= i < |ops| && ops[i].h == x
      {
        if x in m {
          var i :| 0 <= i < n && front[i].h == x;
          assert ops[i].h == x;
        } else {
          assert ops[n].h == x;
        }
      }
      forall i | 0 <= i < |ops|
        ensures ops[i].h in ApplyAll(map[], ops)
      {
        assert i < n ==> front[i].h == ops[i].h;
      }
    }
  }

  /** There is only one such height. */
  lemma RisenOnce(b: nat, h0: nat, g0: nat, peak: nat, h: nat, g: nat, h': nat, g': nat)
    requires b >= 2 && Risen(b, h0, g0, peak, h, g) && Risen(b, h0, g0, peak, h', g')
    ensures h == h' && g == g'
  {
    if h < h' {
      Rising(b, g0, h - h0, h' - 1 - h0);
    } else if h' < h {
      Rising(b, g0, h' - h0, h - 1 - h0);
    }
  }

  lemma {:induction false} Rising(b: nat, g0: nat, k: nat, l: nat)
    requires b >= 2 && k <= l
    ensures g0 * Pow(b, k) <= g0 * Pow(b, l)
    decreases l
  {
    if k < l {
      Rising(b, g0, k, l - 1);
      assert g0 * Pow(b, l) == g0 * Pow(b, l - 1) * b;
    }
  }

  method Perform(t: Hirb, op: Op) returns (r: Option<Value>)
    requires t.Valid() && t.oram.Quiet()
    requires op.Del? ==> op.h in t.Contents()
    modifies t, t.root
    ensures t.Valid() && t.oram.Quiet() && (t.root == old(t.root) || fresh(t.root))
    ensures t.Contents() == Apply(old(t.Contents()), op)
    ensures r == if op.Find? && op.h in old(t.Contents()) then Some(old(t.Contents())[op.h]) else None
    ensures PairsSince(old(t.oram.rounds), t.oram.rounds)
    ensures t.height == old(t.height) + if op.Put? && old(t.size) == old(t.growAt) then 1 else 0
    ensures t.growAt == old(t.growAt) * if op.Put? && old(t.size) == old(t.growAt) then t.b else 1
  {
    hide Hirb.Valid;
    r := None;
    match op
    case Put(h, v) =>
      t.SetItem(h, v);
    case Find(h) =>
      r := t.Lookup(h, true);
    case Del(h) =>
      var b := t.DeleteItem(h);
  }

  /** What a plain dictionary would answer to the operation at an index of a run. */
  ghost function Answer(m: map<Hash, Value>, ops: seq<Op>, i: nat): Option<Value>
    requires i < |ops|
  {
    var now := ApplyAll(m, ops[..i]);
    if ops[i].Find? && ops[i].h in now then Some(now[ops[i].h]) else None
  }

  /** Every run answers each lookup as a plain dictionary would; afterwards the contents and the size
      are the dictionary's, and the trace is oblivious and made of rounds of two reads. */
  method Run(t: Hirb, ops: seq<Op>) returns (found: seq<Option<Value>>)
    requires t.Valid() && t.oram.Quiet() && t.uncounted == 0
    requires DeletesPresent(t.Contents(), ops)
    modifies t, t.root
    ensures t.Valid() && t.oram.Quiet()
    ensures t.Contents() == ApplyAll(old(t.Contents()), ops)
    ensures t.size == |ApplyAll(old(t.Contents()), ops)|
    ensures |found| == |ops| && forall i :: 0 <= i < |ops| ==> found[i] == Answer(old(t.Contents()), ops, i)
    ensures PairsSince(old(t.oram.rounds), t.oram.rounds)
    ensures NoDup(t.oram.Reads())
    ensures t.b >= 2 ==>
              var h0, g0, peak := old(t.height), old(t.growAt), Peak(old(t.Contents()), ops);
              && t.height >= h0 && peak <= t.growAt == g0 * Pow(t.b, t.height - h0)
              && (t.height > h0 ==> g0 * Pow(t.b, t.height - h0 - 1) < peak)
  {
    hide Hirb.Valid, Apply, ApplyAll, NoDup, Risen, Peak, Pow;
    ghost var m0 := t.Contents();
    ApplyNone(m0);
    RisenStart(t);
    assert ops[..0] == [];
    PeakNone(m0);
    found := [];
    for i := 0 to |ops|
      invariant t.Valid() && t.oram.Quiet()
      invariant t.root == old(t.root) || fresh(t.root)
      invariant t.Contents() == ApplyAll(m0, ops[..i])
      invariant |found| == i && forall j :: 0 <= j < i ==> found[j] == Answer(m0, ops, j)
      invariant PairsSince(old(t.oram.rounds), t.oram.rounds)
      invariant t.uncounted == 0
      invariant t.b >= 2 ==> Risen(t.b, old(t.height), old(t.growAt), Peak(m0, ops[..i]), t.height, t.growAt)
    {
      ApplyNext(m0, ops, i);
      ValidSound(t);
      ghost var h, g := t.height, t.growAt;
      var r := Perform(t, ops[i]);
      found := found + [r];
      if t.b >= 2 {
        RisenStep(t.b, old(t.height), old(t.growAt), m0, ops, i, h, g, t.height, t.growAt);
      }
    }
    assert ops[..|ops|] == ops;
    ValidSound(t);
    if t.b >= 2 {
      RisenMeans(t.b, old(t.height), old(t.growAt), Peak(m0, ops), t.height, t.growAt);
    }
  }

  lemma PeakNone(m: map<Hash, Value>)
    ensures Peak(m, []) == 0
  {
  }

  lemma RisenStart(t: Hirb)
    requires t.Valid()
    ensures Risen(t.b, t.height, t.growAt, 0, t.height, t.growAt)
  {
    ThresholdSteps(t.leafB, t.b, t.height);
  }

  lemma RisenMeans(b: nat, h0: nat, g0: nat, peak: nat, h: nat, g: nat)
    requires Risen(b, h0, g0, peak, h, g)
    ensures h >= h0 && peak <= g == g0 * Pow(b, h - h0)
    ensures h > h0 ==> g0 * Pow(b, h - h0 - 1) < peak
  {
  }

  /** From an empty tree, the height after a run follows from the sizes leafB and b and the peak of the run
      alone: g, a quarter of leafB rounded up, times the powers of b are the thresholds. */
  method RunFromEmpty(draws: Draws, leafB: nat, b: nat, initialHeight: nat, ops: seq<Op>, ghost g: nat)
    returns (t: Hirb, found: seq<Option<Value>>)
    requires leafB >= 1 && b >= 2 && 4 * (g - 1) < leafB <= 4 * g
    requires DeletesPresent(map[], ops)
    ensures fresh(t) && t.Valid() && t.Contents() == ApplyAll(map[], ops)
    ensures t.height >= initialHeight && Peak(map[], ops) <= g * Pow(b, t.height)
    ensures t.height > initialHeight ==> g * Pow(b, t.height - 1) < Peak(map[], ops)
  {
    hide Hirb.Valid, ApplyAll, Peak, DeletesPresent;
    t := new Hirb(draws, leafB, b, initialHeight, []);
    ghost var unit := t.growAt / Pow(b, initialHeight);
    assert unit == g;
    found := Run(t, ops);
    PowTimes(g, b, initialHeight, t.height);
  }

  lemma PowTimes(g: nat, b: nat, h0: nat, h: nat)
    requires h0 <= h
    ensures g * Pow(b, h0) * Pow(b, h - h0) == g * Pow(b, h)
    ensures h > h0 ==> g * Pow(b, h0) * Pow(b, h - h0 - 1) == g * Pow(b, h - 1)
  {
    PowAdd(b, h0, h - h0);
    if h > h0 {
      PowAdd(b, h0, h - h0 - 1);
    }
  }

  lemma ApplyNone(m: map<Hash, Value>)
    ensures ApplyAll(m, []) == m
  {
  }

  lemma ApplyNext(m: map<Hash, Value>, ops: seq<Op>, i: nat)
    requires i < |ops|
    ensures ApplyAll(m, ops[..i + 1]) == Apply(ApplyAll(m, ops[..i]), ops[i])
  {
    assert ops[..i + 1][..i] == ops[..i];
  }

  lemma ValidSound(t: Hirb)
    requires t.Valid()
    ensures NoDup(t.oram.Reads())
    ensures |t.Contents()| == t.size + t.uncounted
    ensures t.b >= 2 ==> t.size <= t.growAt
  {
    AsMapSize(t.items);
  }

  /** Deleting a hash that is not there and then looking it up, in a tree of height one, leaves the
      root naming a child that no longer exists. */
  method AbsentDeleteBreaks(t: Hirb, x: Hash)
    requires t.Valid() && t.height == 1 && x !in t.Contents()
    modifies t, t.root
    ensures !t.Valid()
  {
    var present := t.DeleteItem(x);
    var r := t.Lookup(x, true);
  }
}

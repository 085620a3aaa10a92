/** The history-independent randomised B-tree over the vORAM. */
module HirbTree {
  import opened Common
  import opened HirbShape
  import opened BlobMap
  import opened HirbStore
  import opened HirbSplit
  import opened HirbMerge
  import opened HirbNodes
  import opened HirbView
  import opened HirbGrow
  import opened HirbTower

  class Hirb {
    const draws: Draws
    const leafB: nat
    const b: nat

    var oram: Store<Node>
    var root: HirbNode
    var height: nat
    var size: int
    var growAt: nat

    /** The idents generated so far, with ROOT among them so that none is ever equal to it. */
    var issued: set<Ident>
    /** The contents, sorted by hash. */
    ghost var items: seq<Item>
    /** How many items the tree was built with; `size` does not count them. */
    ghost const uncounted: nat

    ghost predicate Valid()
      reads this, root
    {
      && Sound(oram, issued)
      && Sorted(items)
      && |items| == size + uncounted
      && leafB >= 1 && b >= 1 && growAt == Threshold(leafB, b, height)
      && (b >= 2 ==> size <= growAt)
      && Whole(draws, oram.blobs[ROOT := root.Val()], height, items)
      && (forall id <- oram.cached :: oram.blobs[id].Leaf?)
    }

    ghost function Contents(): map<Hash, Value>
      reads this
    {
      AsMap(items)
    }

    /** The root's child that a search for x goes to is still in the vORAM's cache. */
    ghost predicate Stale(x: Hash)
      reads this, root
    {
      && root.internal
      && BisectLeft(root.lhashes, x) < |root.children|
      && x !in root.lhashes
      && root.children[BisectLeft(root.lhashes, x)] in oram.cached
    }

    /** A fresh random ident. */
    method NewIdent() returns (id: Ident)
      requires Sound(oram, issued)
      modifies this`issued
      ensures id !in old(issued) && issued == old(issued) + {id}
      ensures Sound(oram, issued) && Pregen(oram, issued, id)
      ensures forall y :: Pregen(oram, old(issued), y) ==> Pregen(oram, issued, y)
    {
      ghost var bound := FreshBound(issued);
      id :| id !in issued;
      IssueSound(oram, issued, id);
      issued := issued + {id};
    }

    /** The blobs together with the root, as they are between two steps. */
    ghost function Tree(): Blobs
      reads this, root
    {
      oram.blobs[ROOT := root.Val()]
    }

    /** The node in hand is the root, or a blob that was fetched and is not changed yet. */
    ghost predicate InHand(cur: HirbNode, ref: Option<Ident>)
      reads this, root, cur
    {
      && Sound(oram, issued)
      && (ref.None? ==> cur == root)
      && (ref.Some? ==> cur != root && ref.value in oram.cached && oram.blobs[ref.value] == cur.Val())
    }

    /** Goes from a node to its child at index i: the child gets its next ident, which is written
        in the parent before the child is fetched. */
    method StepDown(cur: HirbNode, ref: Option<Ident>, i: nat)
      returns (child: HirbNode, childRef: Ident, ghost next: Ident)
      requires InHand(cur, ref)
      requires cur.internal && i < |cur.children| && cur.children[i] in oram.blobs
               && !oram.blobs[cur.children[i]].Blank?
      requires ref.Some? ==> ref.value != cur.children[i]
      modifies this`oram, this`issued, cur`children
      ensures fresh(child)
      ensures next !in old(issued) && issued == old(issued) + {next}
      ensures cur.children == old(cur.children)[i := next]
      ensures InHand(child, Some(childRef))
      ensures child.Val() == old(oram.blobs[cur.children[i]])
      ensures var k := old(cur.children[i]);
        if ref.None? && k in old(oram.cached) then childRef == k && oram == old(oram)
        else
          && childRef == next
          && Tree() == Moved(old(Tree()), if ref.Some? then ref.value else ROOT, i, next)
          && oram.rounds == (if ref.Some? then old(oram).Finalize().rounds else old(oram.rounds))
          && oram.open == (if ref.Some? then [k] else old(oram.open) + [k])
          && oram.cached == (if ref.Some? then {next} else old(oram.cached) + {next})
    {
      hide Pregen, Sound;
      var k := cur.children[i];
      RootApart(oram, issued);
      if ref.Some? {
        Apart(oram, issued, ref.value);
      }
      ghost var st, rootVal, curVal := oram, root.Val(), cur.Val();
      var pregen := NewIdent();
      next := pregen;
      Unused(oram, issued, next);
      cur.children := cur.children[i := pregen];
      if ref.Some? {
        SetSound(oram, issued, ref.value, cur.Val());
        oram := oram.Set(ref.value, cur.Val());
        FinalizeSound(oram, issued);
        oram := oram.Finalize();
      }
      FetchSound(oram, issued, k, pregen);
      childRef := if k in oram.cached then k else pregen;
      oram := oram.Fetch(k, pregen);
      child := new HirbNode.Unpickle(oram.blobs[childRef]);
      MovedView(st.blobs, rootVal, if ref.Some? then ref.value else ROOT, curVal, i, next, st.blobs[ROOT := rootVal]);
    }

    /** Reads the path of a random ident. */
    method DummyOp()
      requires Sound(oram, issued)
      modifies this`oram, this`issued
      ensures Sound(oram, issued)
      ensures old(issued) <= issued
      ensures oram.blobs == old(oram.blobs) && oram.cached == old(oram.cached) && oram.rounds == old(oram.rounds)
      ensures |oram.open| == |old(oram.open)| + 1
    {
      var decoy := NewIdent();
      DummySound(oram, issued, decoy);
      oram := oram.DummyOp(decoy);
    }

    /** Writes back what was read. */
    method Finalize()
      requires Sound(oram, issued)
      modifies this`oram
      ensures Sound(oram, issued) && oram == old(oram).Finalize()
    {
      FinalizeSound(oram, issued);
      oram := oram.Finalize();
    }

    /** Makes n more rounds that look like the ones of a search that goes on. */
    method DummyRounds(n: nat, disguise: bool)
      requires Sound(oram, issued) && oram.Quiet()
      modifies this`oram, this`issued
      ensures Sound(oram, issued) && oram.Quiet()
      ensures oram.blobs == old(oram.blobs)
      ensures RoundsBy(old(oram), oram, n, if disguise then 2 else 1)
    {
      ghost var before := oram;
      for i := 0 to n
        invariant Sound(oram, issued) && oram.Quiet()
        invariant oram.blobs == before.blobs
        invariant RoundsBy(before, oram, i, if disguise then 2 else 1)
      {
        DummyOp();
        if disguise {
          DummyOp();
        }
        Finalize();
      }
    }

    /** How many levels above the leaves an item belongs, in a tree of this height. */
    method GetHeight(x: Hash) returns (ht: nat)
      ensures ht <= height && (forall k :: 0 <= k < ht ==> draws(x, k) == 0)
      ensures ht < height ==> draws(x, ht) != 0
      ensures ht == Capped(draws, x, height)
    {
      if height == 0 || draws(x, 0) > 0 {
        CappedUnique(draws, x, height, 0);
        return 0;
      }
      ht := 1;
      while ht < height && draws(x, ht) == 0
        invariant 1 <= ht <= height && Tall(draws, x, ht)
      {
        ht := ht + 1;
      }
      CappedUnique(draws, x, height, ht);
    }

    /** One step of a search for x. */
    method SearchStep(cur: HirbNode, ref: Option<Ident>, i: nat, ghost l: nat, ghost a: seq<Item>, ghost m: seq<Item>,
                      ghost b: seq<Item>, ghost x: Hash, ghost m': seq<Item>, ghost all: seq<Item>)
      returns (child: HirbNode, childRef: Ident)
      requires InHand(cur, ref) && l > 0 && NoneTall(draws, l, m) && NoneTall(draws, l, m') && i == |Seps(draws, l, a)|
      requires Pending(draws, Tree(), At(ref), l, a + m + b, a + m' + b, height, all)
      requires Straddle(a, m, b, x)
      modifies this`oram, this`issued, cur`children
      ensures fresh(child)
      ensures Straddle(LastSeg(draws, l, a), m, FirstSeg(draws, l, b), x)
      ensures Shows(draws, child.Val(), l - 1, LastSeg(draws, l, a) + m + FirstSeg(draws, l, b))
      ensures InHand(child, Some(childRef))
      ensures old(ref.None? && i < |cur.children| && cur.children[i] in oram.cached) ==>
              Lost(Tree()) && oram == old(oram)
      ensures !old(ref.None? && i < |cur.children| && cur.children[i] in oram.cached) ==>
        && Pending(draws, Tree(), childRef, l - 1, LastSeg(draws, l, a) + m + FirstSeg(draws, l, b),
                   LastSeg(draws, l, a) + m' + FirstSeg(draws, l, b), height, all)
        && oram.rounds == (if ref.Some? then old(oram).Finalize().rounds else old(oram.rounds))
        && |oram.open| == (if ref.Some? then 1 else |old(oram.open)| + 1)
        && oram.cached == (if ref.Some? then {childRef} else old(oram.cached) + {childRef})
        && i < |old(cur.children)| && cur.children == old(cur.children)[i := childRef]
    {
      ghost var w := Tree();
      PendingChild(draws, w, At(ref), l, a, m, b);
      ghost var next;
      child, childRef, next := StepDown(cur, ref, i);
      PendingDown(draws, w, At(ref), l, a, m, b, next, m', height, all);
      StraddleDown(draws, l, a, m, b, x);
      assert ref.None? ==> Tree()[ROOT].children[i] == next;
    }

    /** A search for x has come to the node in hand.  Putting m' in the place of m, which is all
        there is of x, will turn the contents into `all`.  `gone` says that the search started at a
        stale child. */
    ghost predicate Searching(cur: HirbNode, ref: Option<Ident>, l: nat, a: seq<Item>, m: seq<Item>, b: seq<Item>,
                              x: Hash, m': seq<Item>, all: seq<Item>, before: Store<Node>, width: nat, gone: bool)
      reads this, root, cur
    {
      && (if ref.None? then l == height && oram == before else l < height)
      && Straddle(a, m, b, x)
      && Shows(draws, cur.Val(), l, a + m + b)
      && InHand(cur, ref)
      && if gone then l == 0 && Lost(Tree()) && !before.Quiet()
         else
           && Pending(draws, Tree(), At(ref), l, a + m + b, a + m' + b, height, all)
           && (before.Quiet() ==>
                 Midway(before, oram, height - l, width) && oram.cached == (if ref.Some? then {ref.value} else {}))
    }

    /** What the loop of a search does at a node where x has not been found. */
    method Visit(cur: HirbNode, ref: Option<Ident>, i: nat, disguise: bool, ghost l: nat,
                 ghost a: seq<Item>, ghost m: seq<Item>, ghost b: seq<Item>, ghost x: Hash,
                 ghost m': seq<Item>, ghost all: seq<Item>, ghost before: Store<Node>)
      returns (child: HirbNode, childRef: Ident)
      requires l > 0 && Searching(cur, ref, l, a, m, b, x, m', all, before, if disguise then 2 else 1, false)
      requires i == |Seps(draws, l, a)| && NoneTall(draws, l, m) && NoneTall(draws, l, m')
      requires ref.None? ==> forall id <- oram.cached :: oram.blobs[id].Leaf?
      modifies this`oram, this`issued, cur`children
      ensures fresh(child)
      ensures Searching(child, Some(childRef), l - 1, LastSeg(draws, l, a), m, FirstSeg(draws, l, b), x, m', all,
                        before, if disguise then 2 else 1,
                        ref.None? && i < |old(cur.children)| && old(cur.children)[i] in old(oram.cached))
      ensures ref.None? && !(i < |old(cur.children)| && old(cur.children)[i] in old(oram.cached)) ==>
        i < |old(cur.children)| && cur.children == old(cur.children)[i := childRef]
    {
      hide Pending, Straddle, Midway, Shows, Lost, Seps, Segs, Sound;
      PendingIndex(draws, Tree(), At(ref), l, a, m, b, m', height, all);
      ghost var st := oram;
      child, childRef := SearchStep(cur, ref, i, l, a, m, b, x, m', all);
      if disguise {
        DummyOp();
      }
      if before.Quiet() {
        MidwayStep(before, st, oram, height - l, if disguise then 2 else 1);
      }
    }

    /** What remains to be done after the loop of a search: write back, and make up the rounds that
        a search down to a leaf would have made. */
    method EndSearch(level: nat, disguise: bool, ghost cur: HirbNode, ghost ref: Option<Ident>,
                     ghost a: seq<Item>, ghost m: seq<Item>, ghost b: seq<Item>, ghost x: Hash,
                     ghost before: Store<Node>, ghost gone: bool)
      requires Searching(cur, ref, level, a, m, b, x, m, items, before, if disguise then 2 else 1, gone)
      modifies this`oram, this`issued
      ensures Sound(oram, issued) && oram.Quiet()
      ensures Whole(draws, Tree(), height, items) <==> !gone
      ensures before.Quiet() ==> RoundsBy(before, oram, height, if disguise then 2 else 1)
    {
      hide Pending, Straddle, Midway, RoundsBy, Shows, Lost, Whole, Seps, Segs, Sound;
      ghost var t := Tree();
      if gone {
        LostIsBroken(draws, t, height, items);
      } else {
        PendingDone(draws, t, At(ref), level, a + m + b, height, items);
      }
      ghost var st := oram;
      Finalize();
      ghost var mid := oram;
      DummyRounds(level, disguise);
      assert Tree() == t;
      if before.Quiet() && !gone {
        MidwayDone(before, st, mid, oram, height - level, level, if disguise then 2 else 1);
      }
    }

    /** The search that a look-up makes, down to the node that holds the hash or to a leaf. */
    method Seek(x: Hash, disguise: bool, ghost a0: seq<Item>, ghost m: seq<Item>, ghost b0: seq<Item>,
                ghost before: Store<Node>)
      returns (r: Option<Value>, cur: HirbNode, ref: Option<Ident>, level: nat,
               ghost a: seq<Item>, ghost b: seq<Item>, ghost gone: bool)
      requires Searching(root, None, height, a0, m, b0, x, m, items, before, if disguise then 2 else 1, false)
      requires forall id <- oram.cached :: oram.blobs[id].Leaf?
      modifies this`oram, this`issued, root`children
      ensures Searching(cur, ref, level, a, m, b, x, m, items, before, if disguise then 2 else 1, gone)
      ensures r == if m == [] then None else Some(m[0].value)
      ensures gone <==> old(Stale(x))
    {
      hide Pending, Straddle, Midway, Shows, Lost, Seps, Segs, Sound, NoneTall, LastSeg, FirstSeg, BisectLeft;
      cur, level, ref := root, height, None;
      a, b, r, gone := a0, b0, None, false;
      while true
        invariant 0 <= level
        invariant ref.None? ==> cur == root && root.children == old(root.children)
        invariant ref.Some? ==> fresh(cur)
        invariant gone <==> ref.Some? && old(Stale(x))
        invariant Searching(cur, ref, level, a, m, b, x, m, items, before, if disguise then 2 else 1, gone)
        decreases level
      {
        Present(draws, cur.Val(), level, a, m, b, x);
        var childInd := BisectLeft(cur.lhashes, x);
        if childInd < |cur.lhashes| && cur.lhashes[childInd] == x {
          r := Some(cur.values[childInd]);
          return;
        }
        if level == 0 {
          return;
        }
        Absent(draws, cur.Val(), level, a, m, b, x);
        var child, childRef := Visit(cur, ref, childInd, disguise, level, a, m, b, x, m, items, before);
        gone := gone || old(Stale(x));
        a, b := LastSeg(draws, level, a), FirstSeg(draws, level, b);
        level := level - 1;
        cur, ref := child, Some(childRef);
      }
    }

    /** Looks up a hash on the way down; with `disguise` it reads as many paths as any operation. */
    method Lookup(x: Hash, disguise: bool) returns (r: Option<Value>)
      requires Valid()
      modifies this`oram, this`issued, root`children
      ensures r == if x in Contents() then Some(Contents()[x]) else None
      ensures Valid() <==> !old(Stale(x))
      ensures oram.Quiet()
      ensures old(oram.Quiet()) ==> RoundsBy(old(oram), oram, height, if disguise then 2 else 1)
    {
      hide Pending, Straddle, Midway, RoundsBy, Shows, Lost, Seps, Segs, AsMap, Sound, Whole, Sorted, BisectLeft, Stale;
      ghost var a, m, b := CutAround(items, x);
      AsMapChange(a, m, m, b, x);
      ghost var before := oram;
      PendingAll(draws, Tree(), height, items, items);
      if before.Quiet() {
        MidwayStart(before, if disguise then 2 else 1);
      }
      var value, cur, ref, level, a', b', gone := Seek(x, disguise, a, m, b, before);
      r := value;
      EndSearch(level, disguise, cur, ref, a', m, b', x, before, gone);
    }

    // -------------------------------------------------------------- inserting

    /** Ends the step at a node: its blob is set, unless it is the root, and the paths are written back. */
    method PutBack(cur: HirbNode, ref: Option<Ident>)
      requires Sound(oram, issued)
      requires if ref.Some? then ref.value in oram.cached && cur != root else oram.cached == {} && cur == root
      modifies this`oram
      ensures Sound(oram, issued) && oram.cached == {}
      ensures forall y :: Pregen(old(oram), issued, y) ==> Pregen(oram, issued, y)
      ensures ref.Some? ==> ref.value != ROOT && ref.value in old(oram.blobs)
      ensures oram.blobs == if ref.Some? then old(oram.blobs)[ref.value := cur.Val()] else old(oram.blobs)
      ensures oram.rounds == if ref.Some? then old(oram).Finalize().rounds else old(oram.rounds)
      ensures |oram.open| == if ref.Some? then 0 else |old(oram.open)|
    {
      hide Sound, Pregen;
      if ref.Some? {
        Apart(oram, issued, ref.value);
        SetSound(oram, issued, ref.value, cur.Val());
        oram := oram.Set(ref.value, cur.Val());
        FinalizeSound(oram, issued);
        oram := oram.Finalize();
      }
    }

    /** Writes the parent back, fetches the child k under its ident `next` and splits it at x, the
        right half going to the ident `step`. */
    method FetchHalves(cur: HirbNode, ref: Option<Ident>, k: Ident, next: Ident, step: Ident, x: Hash, ghost w: Blobs,
                       ghost i: nat)
      returns (child: HirbNode, sibling: HirbNode)
      requires Sound(oram, issued) && Pregen(oram, issued, next) && Pregen(oram, issued, step) && next != step
      requires k in oram.blobs && k in w && w[k] == oram.blobs[k] && !w[k].Blank?
      requires |w[k].values| == |w[k].lhashes| && (w[k].Internal? ==> |w[k].children| == |w[k].lhashes| + 1)
      requires i == BisectLeft(w[k].lhashes, x) && x !in w[k].lhashes
      requires if ref.Some? then ref.value in oram.cached && ref.value != k && cur != root
               else oram.cached == {} && cur == root
      modifies this`oram, this`issued
      ensures fresh(child) && fresh(sibling) && child != sibling
      ensures Sound(oram, issued) && {next, step} <= oram.cached
      ensures old(issued) <= issued
      ensures child.Val() == LeftPart(w[k], i)
      ensures Tree()[next := child.Val()][step := sibling.Val()] ==
              Split(w, old(Tree()[At(ref) := cur.Val()]) - {k}, k, next, step, i)
      ensures oram.rounds == (if ref.Some? then old(oram).Finalize().rounds else old(oram.rounds))
      ensures |oram.open| == (if ref.Some? then 2 else |old(oram.open)| + 2)
    {
      hide Sound, Pregen, LeftPart, RightPart, BisectLeft, HirbSplit.Split;
      Unused(oram, issued, next);
      Unused(oram, issued, step);
      RootApart(oram, issued);
      ghost var blobs, rootVal, curVal := oram.blobs, root.Val(), cur.Val();
      PutBack(cur, ref);
      FetchSound(oram, issued, k, next);
      oram := oram.Fetch(k, next);
      child := new HirbNode.Unpickle(oram.blobs[next]);
      var decoy := NewIdent();
      CreateReadSound(oram, issued, decoy, step);
      oram := oram.CreateRead(decoy, step, Blank);
      sibling := child.Split(x);
      HalvesView(blobs, rootVal, At(ref), curVal, k, next, step, w, i);
    }

    /** An insertion has come to the node in hand, which got the new item at index i. */
    ghost predicate Inserted(cur: HirbNode, ref: Option<Ident>, w: Blobs, l: nat, a: seq<Item>, y: Item, b: seq<Item>,
                             i: nat, all: seq<Item>)
      reads this, root, cur
    {
      && Sound(oram, issued)
      && (if ref.Some? then cur != root && ref.value in oram.cached else cur == root && oram.cached == {})
      && Tall(draws, y.hash, l) && Below(a, y.hash) && Above(b, y.hash) && i == |Seps(draws, l, a)|
      && Pending(draws, w, At(ref), l, a + [] + b, a + [y] + b, height, all)
      && At(ref) in w && !w[At(ref)].Blank? && i <= |w[At(ref)].lhashes| && i <= |w[At(ref)].values|
      && Tree()[At(ref) := cur.Val()] == w[At(ref) := WithItem(w[At(ref)], i, y)]
    }

    /** An insertion has split nodes down to the two halves in hand. */
    ghost predicate Halved(cur: HirbNode, ref: Ident, sibling: HirbNode, sibRef: Ident, w: Blobs, l: nat,
                           a: seq<Item>, b: seq<Item>, x: Hash, pre: seq<Ident>, k: Ident, post: seq<Ident>, i: nat,
                           all: seq<Item>)
      reads this, root, cur, sibling
    {
      && Sound(oram, issued)
      && cur != root && sibling != root && cur != sibling && {ref, sibRef} <= oram.cached
      && Below(a, x) && Above(b, x) && i == |Seps(draws, l, a)|
      && PendingTwo(draws, w, ref, sibRef, l, a, b, pre, k, post, height, all)
      && w == Tree()[ref := cur.Val()][sibRef := sibling.Val()]
    }

    /** The first round of the loop that splits nodes: below the node with the new item. */
    method SplitFirst(cur: HirbNode, ref: Option<Ident>, i: nat, x: Hash,
                      ghost w: Blobs, ghost l: nat, ghost a: seq<Item>, ghost y: Item, ghost b: seq<Item>,
                      ghost all: seq<Item>)
      returns (child: HirbNode, next: Ident, sibling: HirbNode, step: Ident, j: nat,
               ghost pre: seq<Ident>, ghost kk: Ident, ghost post: seq<Ident>)
      requires l > 0 && Inserted(cur, ref, w, l, a, y, b, i, all) && y.hash == x
      modifies this`oram, this`issued, cur`children
      ensures fresh(child) && fresh(sibling)
      ensures Halved(child, next, sibling, step, Tree()[next := child.Val()][step := sibling.Val()], l - 1,
                     LastSeg(draws, l, a), FirstSeg(draws, l, b), x, pre, kk, post, j, all)
      ensures oram.rounds == (if ref.Some? then old(oram).Finalize().rounds else old(oram.rounds))
      ensures |oram.open| == (if ref.Some? then 2 else |old(oram.open)| + 2)
    {
      hide Sound, Pregen, Pending, PendingTwo, Shows, Tall, Seps, Segs, LeftPart, RightPart, BisectLeft;
      ghost var c, tree, curVal := At(ref), Tree(), cur.Val();
      step := NewIdent();
      next := NewIdent();
      Unused(oram, issued, step);
      Unused(oram, issued, next);
      ghost var h := |Seps(draws, l - 1, LastSeg(draws, l, a))|;
      CachedPresent(oram, issued);
      SameElsewhere(tree, w, c, curVal, WithItem(w[c], i, y));
      pre, kk, post := TwoFromOne(draws, w, c, l, a, y, b, next, step, i, h, height, all);
      WedgedView(tree, w, c, i, y, next, step, curVal);
      cur.children := cur.children[..i + 1] + [step] + cur.children[i + 1..];
      var k := cur.children[i];
      cur.children := cur.children[i := next];
      HalvesIndex(draws, w[k], l, a, b, x);
      assert Tree()[c := cur.Val()] - {k} == Wedged(w, c, i, y, next, step);
      child, sibling := FetchHalves(cur, ref, k, next, step, x, w, h);
      assert Tree()[next := child.Val()][step := sibling.Val()]
             == Split(w, Wedged(w, c, i, y, next, step), k, next, step, h);
      j := BisectLeft(child.lhashes, x);
    }

    /** Names the two halves of a child that two nodes share in these nodes, one of which is set. */
    method NameHalves(cur: HirbNode, ref: Ident, sib: HirbNode, sibRef: Ident, i: nat, next: Ident, step: Ident,
                      ghost w: Blobs, ghost pre: seq<Ident>, ghost k0: Ident, ghost post: seq<Ident>)
      returns (k: Ident)
      requires Sound(oram, issued) && Pregen(oram, issued, next) && Pregen(oram, issued, step)
      requires cur != root && sib != root && cur != sib && ref != sibRef && {ref, sibRef} <= oram.cached
      requires w == Tree()[ref := cur.Val()][sibRef := sib.Val()] && k0 in w && k0 != ref && k0 != sibRef && k0 != ROOT
      requires cur.internal && cur.children == pre + [k0] && |pre| == i
      requires sib.internal && sib.children == [k0] + post
      modifies this`oram, cur`children, sib`children
      ensures k == k0 && k in oram.blobs && oram.blobs[k] == w[k]
      ensures Sound(oram, issued) && Pregen(oram, issued, next) && Pregen(oram, issued, step)
      ensures oram.cached == old(oram.cached) && oram.rounds == old(oram.rounds) && oram.open == old(oram.open)
      ensures cur.children == pre + [next]
      ensures Tree()[ref := cur.Val()] - {k} == Parted(w, ref, sibRef, pre, k, post, next, step)
    {
      hide Sound, Pregen, Parted;
      ghost var tree, curVal, sibVal := Tree(), cur.Val(), sib.Val();
      Apart(oram, issued, sibRef);
      PartedView(tree, w, ref, sibRef, curVal, sibVal, pre, k0, post, next, step);
      sib.children := sib.children[0 := step];
      SetSound(oram, issued, sibRef, sib.Val());
      oram := oram.Set(sibRef, sib.Val());
      k := cur.children[i];
      cur.children := cur.children[i := next];
      assert sib.children == [step] + post && cur.children == pre + [next];
      assert Tree() == tree[sibRef := sib.Val()];
    }

    /** Every further round: the sibling gets the ident of its first child's right half. */
    method SplitAgain(cur: HirbNode, ref: Ident, sib: HirbNode, sibRef: Ident, i: nat, x: Hash, ghost w: Blobs,
                      ghost l: nat, ghost a: seq<Item>, ghost b: seq<Item>, ghost pre0: seq<Ident>, ghost k0: Ident,
                      ghost post0: seq<Ident>, ghost all: seq<Item>)
      returns (child: HirbNode, next: Ident, sibling: HirbNode, step: Ident, j: nat,
               ghost pre: seq<Ident>, ghost kk: Ident, ghost post: seq<Ident>)
      requires l > 0 && Halved(cur, ref, sib, sibRef, w, l, a, b, x, pre0, k0, post0, i, all)
      modifies this`oram, this`issued, cur`children, sib`children
      ensures fresh(child) && fresh(sibling)
      ensures Halved(child, next, sibling, step, Tree()[next := child.Val()][step := sibling.Val()], l - 1,
                     LastSeg(draws, l, a), FirstSeg(draws, l, b), x, pre, kk, post, j, all)
      ensures oram.rounds == old(oram).Finalize().rounds && |oram.open| == 2
    {
      hide Sound, Pregen, PendingTwo, Shows, Seps, Segs, LeftPart, RightPart, BisectLeft, Below, Above, LastSeg,
        FirstSeg, Parted, HirbSplit.Split;
      step := NewIdent();
      next := NewIdent();
      Unused(oram, issued, step);
      Unused(oram, issued, next);
      CachedPresent(oram, issued);
      ghost var h := |Seps(draws, l - 1, LastSeg(draws, l, a))|;
      pre, kk, post := TwoFromTwo(draws, w, ref, sibRef, l, a, b, pre0, k0, post0, next, step, h, height, all);
      var k := NameHalves(cur, ref, sib, sibRef, i, next, step, w, pre0, k0, post0);
      HalvesIndex(draws, w[k], l, a, b, x);
      child, sibling := FetchHalves(cur, Some(ref), k, next, step, x, w, h);
      j := BisectLeft(child.lhashes, x);
    }

    /** The last write-back when leaves were split. */
    method WriteHalves(cur: HirbNode, ref: Ident, sib: HirbNode, sibRef: Ident, ghost a: seq<Item>,
                       ghost b: seq<Item>, ghost x: Hash,
                       ghost pre: seq<Ident>, ghost kk: Ident, ghost post: seq<Ident>, ghost i: nat,
                       ghost all: seq<Item>)
      requires Halved(cur, ref, sib, sibRef, Tree()[ref := cur.Val()][sibRef := sib.Val()], 0, a, b, x, pre, kk, post,
                      i, all)
      modifies this`oram
      ensures Sound(oram, issued) && Whole(draws, Tree(), height, all)
      ensures oram.cached == {} && oram.rounds == old(oram).Finalize().rounds && oram.open == []
    {
      hide Sound, PendingTwo, Whole, Seps;
      CachedPresent(oram, issued);
      Apart(oram, issued, ref);
      Apart(oram, issued, sibRef);
      TwoDone(draws, Tree()[ref := cur.Val()][sibRef := sib.Val()], ref, sibRef, a, b, pre, kk, post, height, all);
      ghost var w := Tree()[ref := cur.Val()][sibRef := sib.Val()];
      SetSound(oram, issued, ref, cur.Val());
      oram := oram.Set(ref, cur.Val());
      SetSound(oram, issued, sibRef, sib.Val());
      oram := oram.Set(sibRef, sib.Val());
      Finalize();
      assert Tree() == w;
    }

    /** The last write-back when the item went straight into a leaf. */
    method WriteLeaf(cur: HirbNode, ref: Option<Ident>, ghost w: Blobs, ghost a: seq<Item>, ghost y: Item,
                     ghost b: seq<Item>, ghost i: nat, ghost all: seq<Item>)
      requires Inserted(cur, ref, w, 0, a, y, b, i, all)
      modifies this`oram
      ensures Sound(oram, issued) && Whole(draws, Tree(), height, all)
      ensures if ref.None? then oram == old(oram) else oram == old(oram).Set(ref.value, cur.Val()).Finalize()
    {
      hide Sound, Pending, Whole, Seps;
      CachedPresent(oram, issued);
      LeafDone(draws, w, At(ref), a, y, b, height, all);
      if ref.Some? {
        Apart(oram, issued, ref.value);
        ghost var t := Tree()[ref.value := cur.Val()];
        SetSound(oram, issued, ref.value, cur.Val());
        oram := oram.Set(ref.value, cur.Val());
        Finalize();
        assert Tree() == t;
      } else {
        assert Tree() == Tree()[ROOT := cur.Val()];
      }
    }

    /** The loop that splits nodes down to the leaves, and the last write-back. */
    method SplitPath(cur0: HirbNode, ref0: Option<Ident>, i0: nat, level0: nat, x: Hash,
                     ghost w: Blobs, ghost a0: seq<Item>, ghost y: Item, ghost b0: seq<Item>, ghost all: seq<Item>,
                     ghost before: Store<Node>)
      requires Inserted(cur0, ref0, w, level0, a0, y, b0, i0, all) && y.hash == x
      requires if ref0.None? then level0 == height && oram == before else level0 < height
      requires before.Quiet() && Midway(before, oram, height - level0, 2)
      modifies this`oram, this`issued, cur0`children
      ensures Sound(oram, issued) && oram.Quiet()
      ensures Whole(draws, Tree(), height, all)
      ensures RoundsBy(before, oram, height, 2)
    {
      hide Sound, Pregen, Pending, PendingTwo, Seps, Segs, Midway, RoundsBy, Whole, Tall, Below, Above;
      var cur, ref, i, level := cur0, ref0, i0, level0;
      var sib: HirbNode? := null;
      var sibRef := ROOT;
      ghost var a, b, pre, kk, post := a0, b0, [], ROOT, [];
      while level > 0
        invariant 0 <= level <= level0
        invariant sib == null ==> cur == cur0 && ref == ref0 && i == i0 && level == level0 && a == a0 && b == b0
        invariant sib == null ==> Inserted(cur, ref, w, level, a, y, b, i, all) && oram == old(oram)
        invariant sib != null ==> fresh(cur) && fresh(sib) && ref.Some? && level < level0
        invariant sib != null ==>
                    Halved(cur, ref.value, sib, sibRef, Tree()[ref.value := cur.Val()][sibRef := sib.Val()],
                           level, a, b, x, pre, kk, post, i, all)
        invariant Midway(before, oram, height - level, 2)
      {
        ghost var st := oram;
        if sib != null {
          var child, next, sibling, step, j, p, c, q := SplitAgain(cur, ref.value, sib, sibRef, i, x,
            Tree()[ref.value := cur.Val()][sibRef := sib.Val()], level, a, b, pre, kk, post, all);
          cur, ref, sib, sibRef, i, pre, kk, post := child, Some(next), sibling, step, j, p, c, q;
        } else {
          var child, next, sibling, step, j, p, c, q := SplitFirst(cur, ref, i, x, w, level, a, y, b, all);
          cur, ref, sib, sibRef, i, pre, kk, post := child, Some(next), sibling, step, j, p, c, q;
        }
        MidwayStep(before, st, oram, height - level, 2);
        a, b := LastSeg(draws, level, a), FirstSeg(draws, level, b);
        level := level - 1;
      }
      ghost var st := oram;
      if sib != null {
        WriteHalves(cur, ref.value, sib, sibRef, a, b, x, pre, kk, post, i, all);
      } else {
        WriteLeaf(cur, ref, w, a, y, b, i, all);
      }
      MidwayEnd(before, st, oram, height, 2);
    }

    /** Changes the value of an item that is there, and makes up the remaining rounds. */
    method Overwrite(cur: HirbNode, ref: Option<Ident>, level: nat, i: nat, v: Value,
                     ghost a: seq<Item>, ghost z: Item, ghost b: seq<Item>, ghost all: seq<Item>,
                     ghost before: Store<Node>)
      requires Searching(cur, ref, level, a, [z], b, z.hash, [Item(z.hash, v)], all, before, 2, false)
      requires before.Quiet() && Tall(draws, z.hash, level) && i == |Seps(draws, level, a)|
      modifies this`oram, this`issued, cur`values
      ensures Sound(oram, issued) && oram.Quiet()
      ensures Whole(draws, Tree(), height, all)
      ensures RoundsBy(before, oram, height, 2)
    {
      hide Sound, Pending, Whole, Seps, Midway, RoundsBy, Shows, Straddle, Tall, Segs, LastSeg, FirstSeg, BisectLeft,
        Lost;
      ghost var y := Item(z.hash, v);
      ghost var t := Tree();
      ReplaceDone(draws, t, At(ref), level, a, z, b, y, i, height, all);
      if ref.Some? {
        Apart(oram, issued, ref.value);
      }
      assert t[At(ref)] == cur.Val();
      cur.values := cur.values[i := v];
      ghost var w := Tree()[At(ref) := cur.Val()];
      ghost var st := oram;
      if ref.Some? {
        Apart(oram, issued, ref.value);
        SetSound(oram, issued, ref.value, cur.Val());
        oram := oram.Set(ref.value, cur.Val());
        Finalize();
      }
      assert Tree() == w == t[At(ref) := t[At(ref)].(values := t[At(ref)].values[i := v])];
      ghost var mid := oram;
      MidwayEnd(before, st, mid, height - level, 2);
      DummyRounds(level, true);
      RoundsConcat(before, mid, oram, height - level, level, 2);
      assert Tree() == w;
    }

    /** Puts a new item into the node at its level and splits the nodes below. */
    method AddItem(cur: HirbNode, ref: Option<Ident>, level: nat, i: nat, x: Hash, v: Value,
                   ghost a: seq<Item>, ghost b: seq<Item>, ghost all: seq<Item>, ghost before: Store<Node>)
      requires Searching(cur, ref, level, a, [], b, x, [Item(x, v)], all, before, 2, false)
      requires before.Quiet() && Tall(draws, x, level) && i == |Seps(draws, level, a)|
      requires i <= |cur.lhashes| == |cur.values| && Below(a, x) && Above(b, x)
      modifies this`oram, this`issued, cur
      ensures Sound(oram, issued) && oram.Quiet()
      ensures Whole(draws, Tree(), height, all)
      ensures RoundsBy(before, oram, height, 2)
    {
      hide Sound, Pending, Whole, Seps, Midway, RoundsBy, Shows, Straddle, Tall, Below, Above, Segs, LastSeg,
        FirstSeg, BisectLeft, Lost;
      ghost var t := Tree();
      if ref.Some? {
        Apart(oram, issued, ref.value);
      }
      assert t[At(ref)] == cur.Val();
      cur.lhashes := cur.lhashes[..i] + [x] + cur.lhashes[i..];
      cur.values := cur.values[..i] + [v] + cur.values[i..];
      assert Tree()[At(ref) := cur.Val()] == t[At(ref) := WithItem(t[At(ref)], i, Item(x, v))];
      SplitPath(cur, ref, i, level, x, t, a, Item(x, v), b, all, before);
    }

    /** The part of an assignment that comes after the tree has grown, if it had to. */
    method Place(x: Hash, v: Value)
      requires Valid() && oram.Quiet() && (b >= 2 ==> size < growAt)
      modifies this`oram, this`issued, this`size, this`items, root
      ensures Valid() && oram.Quiet()
      ensures Contents() == old(Contents())[x := v]
      ensures RoundsBy(old(oram), oram, height, 2)
      ensures size == old(size) + if x in old(Contents()) then 0 else 1
    {
      hide Sound, Pending, Whole, Seps, Segs, Midway, RoundsBy, Shows, Straddle, Tall, AsMap, Sorted, LastSeg, FirstSeg,
        BisectLeft, BisectRight;
      ghost var a, m, b := CutAround(items, x);
      ghost var y := Item(x, v);
      ghost var all := a + [y] + b;
      assert |all| == |items| - |m| + 1;
      SortedChange(a, m, [y], b, x);
      AsMapChange(a, m, [y], b, x);
      ghost var before := oram;
      var thislevel := GetHeight(x);
      var cur := root;
      var level := height;
      var ref: Option<Ident> := None;
      PendingAll(draws, Tree(), height, items, all);
      MidwayStart(before, 2);
      while level > thislevel
        invariant thislevel <= level
        invariant ref.None? ==> cur == root
        invariant ref.Some? ==> fresh(cur)
        invariant size == old(size)
        invariant Straddle(a, m, b, x)
        invariant Searching(cur, ref, level, a, m, b, x, [y], all, before, 2, false)
        decreases level
      {
        TooTall(draws, cur.Val(), level, thislevel, a, m, b, x, [y]);
        var childInd := BisectRight(cur.lhashes, x);
        var child, childRef := Visit(cur, ref, childInd, true, level, a, m, b, x, [y], all, before);
        a, b := LastSeg(draws, level, a), FirstSeg(draws, level, b);
        level := level - 1;
        cur, ref := child, Some(childRef);
      }
      Land(draws, cur.Val(), level, a, m, b, x);
      var childInd := BisectLeft(cur.lhashes, x);
      if childInd < |cur.lhashes| && cur.lhashes[childInd] == x {
        Overwrite(cur, ref, level, childInd, v, a, m[0], b, all, before);
      } else {
        AddItem(cur, ref, level, childInd, x, v, a, b, all, before);
        size := size + 1;
      }
      items := all;
    }

    /** The new root and what remains of the old one, while the tree grows. */
    ghost predicate Mounting(oldroot: HirbNode, oldref: Ident, l: nat, p: seq<Item>, r: seq<Item>, done: seq<Ident>)
      reads this, root, oldroot
    {
      && Sound(oram, issued) && oldref in oram.cached
      && root != oldroot && height == l + 1
      && Sorted(r)
      && Growing(draws, oram.blobs[oldref := oldroot.Val()], l, p, r, done, oldref)
      && root.Val() == Internal(Hashes(Seps(draws, l + 1, p)), Values(Seps(draws, l + 1, p)), done + [oldref])
    }

    /** Moves the item y at this index of the old root to the new root, and splits the old root there. */
    method Promote(oldroot: HirbNode, oldref: Ident, index: nat, ghost l: nat, ghost p: seq<Item>,
                   ghost s1: seq<Item>, ghost y: Item, ghost s2: seq<Item>, ghost done: seq<Ident>)
      returns (nextroot: HirbNode, nextref: Ident)
      requires Mounting(oldroot, oldref, l, p, s1 + [y] + s2, done)
      requires Tall(draws, y.hash, l + 1) && NoneTall(draws, l + 1, s1) && index == |Seps(draws, l, s1)|
      modifies this`oram, this`issued, root, oldroot
      ensures fresh(nextroot)
      ensures Mounting(nextroot, nextref, l, p + s1 + [y], s2, done + [oldref])
      ensures oram.rounds == old(oram.rounds) && oram.open == old(oram.open)
      ensures |nextroot.lhashes| + index + 1 == |old(oldroot.lhashes)|
    {
      hide Sound, Pregen, LeftPart, RightPart, Seps, Segs, Growing, Tall, NoneTall, Sorted, BisectLeft;
      ghost var v, oldVal := oram.blobs[oldref := oldroot.Val()], oldroot.Val();
      TallDown(draws, y.hash, l + 1, l);
      GrowingNode(draws, v, l, p, s1, y, s2, done, oldref);
      nextref := NewIdent();
      Unused(oram, issued, nextref);
      Apart(oram, issued, oldref);
      GrowStep(draws, v, l, p, s1, y, s2, done, oldref, nextref, index);
      HashesConcat(Seps(draws, l + 1, p), [y]);
      PartLengths(oldVal, index);

      root.lhashes := root.lhashes + [oldroot.lhashes[index]];
      root.values := root.values + [oldroot.values[index]];
      nextroot := oldroot.Split(oldroot.lhashes[index]);
      SetSound(oram, issued, oldref, oldroot.Val());
      oram := oram.Set(oldref, oldroot.Val());
      CreateSound(oram, issued, nextref);
      oram := oram.Create(nextref, Blank);
      root.children := root.children + [nextref];
      ghost var halves: Blobs := v[oldref := LeftPart(oldVal, index)];
      halves := halves[nextref := RightPart(oldVal, index + 1)];
      assert oram.blobs[nextref := nextroot.Val()] == halves;
    }

    /** Puts a new root above the old one. */
    method Mount() returns (oldroot: HirbNode, oldref: Ident)
      requires Valid()
      modifies this`oram, this`issued, this`root, this`height, this`growAt
      ensures oldroot == old(root) && fresh(root)
      ensures height == old(height) + 1 && growAt == old(growAt) * b
      ensures Mounting(oldroot, oldref, old(height), [], items, [])
      ensures oram.rounds == old(oram.rounds) && oram.open == old(oram.open)
    {
      hide Sound, Pregen, Growing, Whole, Sorted, Segs;
      ghost var l, w0 := height, Tree();
      oldroot := root;
      oldref := NewIdent();
      Unused(oram, issued, oldref);
      CreateSound(oram, issued, oldref);
      oram := oram.Create(oldref, Blank);
      root := new HirbNode.MakeInternal(Some(oldref));
      height := height + 1;
      growAt := growAt * b;
      GrowStart(draws, w0, l, items, oldref, oram.blobs[oldref := oldroot.Val()]);
    }

    /** Adds a level: the root's items that are tall enough go to the new root, and the old root is
        split at each of them. */
    method Grow()
      requires Valid()
      modifies this`oram, this`issued, this`root, this`height, this`growAt, root
      ensures Sound(oram, issued) && fresh(root)
      ensures height == old(height) + 1 && growAt == old(growAt) * b
      ensures Whole(draws, Tree(), height, items)
      ensures oram.rounds == old(oram.rounds) && oram.open == old(oram.open)
    {
      hide Sound, Growing, Whole, Tall, Sorted, Segs, Seps, NoneTall;
      ghost var l := height;
      var oldroot, oldref := Mount();
      var index := 0;
      ghost var p, r, done := [], items, [];
      EmptyRun(draws, l + 1);
      GrowingLength(draws, oram.blobs[oldref := oldroot.Val()], l, p, r, done, oldref);
      assert Seps(draws, l, r)[..0] == [];
      while index < |oldroot.lhashes|
        invariant oldroot == old(root) || fresh(oldroot)
        invariant fresh(root)
        invariant items == old(items) == p + r
        invariant Mounting(oldroot, oldref, l, p, r, done)
        invariant |oldroot.lhashes| == |Seps(draws, l, r)|
        invariant index <= |Seps(draws, l, r)| && NoneTall(draws, l + 1, Seps(draws, l, r)[..index])
        invariant oram.rounds == old(oram.rounds) && oram.open == old(oram.open)
        invariant height == l + 1 && growAt == old(growAt) * b
        decreases |oldroot.lhashes| - index
      {
        ghost var s1, y, s2 := SepsAt(draws, l, r, index);
        PromoteChoice(draws, l, r, s1, y, s2, index);
        GrowingNode(draws, oram.blobs[oldref := oldroot.Val()], l, p, s1, y, s2, done, oldref);
        var rootlhash := oldroot.lhashes[index];
        var newlevel := GetHeight(rootlhash);
        assert newlevel >= height - 1;
        if newlevel == height {
          var nextroot, nextref := Promote(oldroot, oldref, index, l, p, s1, y, s2, done);
          done := done + [oldref];
          p, r := p + s1 + [y], s2;
          oldroot, oldref := nextroot, nextref;
          index := 0;
          assert Seps(draws, l, r)[..0] == [];
          GrowingLength(draws, oram.blobs[oldref := oldroot.Val()], l, p, r, done, oldref);
        } else {
          index := index + 1;
        }
      }
      assert Seps(draws, l, r)[..index] == Seps(draws, l, r);
      GrowDone(draws, oram.blobs[oldref := oldroot.Val()], l, p, r, done, oldref, root.Val());
      SetSound(oram, issued, oldref, oldroot.Val());
      oram := oram.Set(oldref, oldroot.Val());
    }

    /** Assigns a value to a hash. */
    method SetItem(x: Hash, v: Value)
      requires Valid()
      modifies this`oram, this`issued, this`root, this`height, this`growAt, this`size, this`items, root
      ensures Valid() && oram.Quiet()
      ensures Contents() == old(Contents())[x := v]
      ensures RoundsBy(old(oram).Finalize(), oram, height, 2)
      ensures size == old(size) + if x in old(Contents()) then 0 else 1
      ensures height == old(height) + if old(size) == old(growAt) then 1 else 0
      ensures growAt == old(growAt) * if old(size) == old(growAt) then b else 1
      ensures root == old(root) || fresh(root)
    {
      hide Sound, Whole, Sorted, AsMap, RoundsBy, Threshold;
      ThresholdSteps(leafB, b, height);
      if size == growAt {
        Grow();
      }
      Finalize();
      ghost var mid := oram;
      Place(x, v);
      RoundsSame(old(oram).Finalize(), mid, oram, height, 2);
    }

    // -------------------------------------------------------------- deleting

    /** A deletion has come to the node in hand, which lost its item at index i; the tree was w. */
    ghost predicate Deleted(cur: HirbNode, ref: Option<Ident>, w: Blobs, l: nat, a: seq<Item>, z: Item, b: seq<Item>,
                            i: nat, all: seq<Item>)
      reads this, root, cur
    {
      && Sound(oram, issued)
      && (if ref.Some? then cur != root && ref.value in oram.cached else cur == root && oram.cached == {})
      && Tall(draws, z.hash, l) && i == |Seps(draws, l, a)|
      && Pending(draws, w, At(ref), l, a + [z] + b, a + [] + b, height, all)
      && At(ref) in w && !w[At(ref)].Blank? && i < |w[At(ref)].lhashes| && i < |w[At(ref)].values|
      && Tree()[At(ref) := cur.Val()] == w[At(ref) := WithoutItem(w[At(ref)], i)]
    }

    /** A deletion has merged nodes down to the one in hand; `zombie` is the sibling it took in,
        still to be destroyed, and q is the sibling of its child at index i. */
    ghost predicate Merging(cur: HirbNode, ref: Ident, zombie: Ident, l: nat, a: seq<Item>, b: seq<Item>,
                            pre: seq<Ident>, k: Ident, post: seq<Ident>, q: Ident, i: nat, all: seq<Item>)
      reads this, root, cur
    {
      && Sound(oram, issued)
      && cur != root && {ref, zombie} <= oram.cached && ref != zombie
      && (l > 0 ==> i == |pre|)
      && PendingMerge(draws, (Tree() - {zombie})[ref := cur.Val()], ref, l, a, b, pre, k, post, q, height, all)
    }

    /** Writes the parent back, fetches the child k under its ident `next` and its sibling q, and
        merges the two. */
    method FetchMerge(cur: HirbNode, ref: Option<Ident>, k: Ident, next: Ident, q: Ident, ghost w: Blobs)
      returns (child: HirbNode, zombie: Ident, left: Option<Ident>, j: nat)
      requires Sound(oram, issued) && Pregen(oram, issued, next)
      requires w == Tree()[At(ref) := cur.Val()] && Mergeable(w, At(ref), k, q)
      requires if ref.Some? then ref.value in oram.cached && cur != root else oram.cached == {} && cur == root
      modifies this`oram, this`issued
      ensures fresh(child)
      ensures Sound(oram, issued) && {next, zombie} <= oram.cached && next != zombie
      ensures old(issued) <= issued
      ensures child.Val() == Merged(w[k], w[q]) && (child.internal ==> left == Some(w[q].children[0]))
      ensures j == |w[k].lhashes|
      ensures (Tree() - {zombie})[next := child.Val()] == (w - {k, q})[next := child.Val()]
      ensures oram.rounds == (if ref.Some? then old(oram).Finalize().rounds else old(oram.rounds))
      ensures |oram.open| == (if ref.Some? then 2 else |old(oram.open)| + 2)
    {
      hide Sound, Pregen, Merged;
      Covered(oram, issued);
      ghost var blobs, rootVal, curVal := oram.blobs, root.Val(), cur.Val();
      Unused(oram, issued, next);
      PutBack(cur, ref);
      FetchSound(oram, issued, k, next);
      oram := oram.Fetch(k, next);
      child := new HirbNode.Unpickle(oram.blobs[next]);
      zombie := NewIdent();
      Unused(oram, issued, zombie);
      FetchSound(oram, issued, q, zombie);
      oram := oram.Fetch(q, zombie);
      var sibling := new HirbNode.Unpickle(oram.blobs[zombie]);
      j := |child.lhashes|;
      left := child.Merge(sibling);
      MergeView(blobs, rootVal, At(ref), curVal, k, q, next, zombie, child.Val());
    }

    /** The first round of the loop that merges nodes: below the node that lost its item. */
    method MergeFirst(cur: HirbNode, ref: Option<Ident>, i: nat, ghost w: Blobs, ghost l: nat,
                      ghost a: seq<Item>, ghost z: Item, ghost b: seq<Item>, ghost all: seq<Item>)
      returns (child: HirbNode, next: Ident, zombie: Ident, left: Option<Ident>, j: nat,
               ghost pre: seq<Ident>, ghost kk: Ident, ghost post: seq<Ident>, ghost q: Ident)
      requires l > 0 && Deleted(cur, ref, w, l, a, z, b, i, all)
      modifies this`oram, this`issued, cur`children
      ensures fresh(child)
      ensures Merging(child, next, zombie, l - 1, LastSeg(draws, l, a), FirstSeg(draws, l, b), pre, kk, post, q, j, all)
      ensures l > 1 ==> left == Some(q)
      ensures oram.rounds == (if ref.Some? then old(oram).Finalize().rounds else old(oram.rounds))
      ensures |oram.open| == (if ref.Some? then 2 else |old(oram.open)| + 2)
    {
      hide Sound, Pregen, Pending, PendingMerge, Tall, Seps, Segs, Merged;
      ghost var c, tree, curVal := At(ref), Tree(), cur.Val();
      CachedPresent(oram, issued);
      MergeFromDelete(draws, w, c, l, a, z, b, i, height, all);
      ghost var cs := w[c].children;
      SameElsewhere(tree, w, c, curVal, WithoutItem(w[c], i));
      assert tree[c := curVal][c] == curVal == WithoutItem(w[c], i);
      var q0 := cur.children[i + 1];
      cur.children := cur.children[..i + 1] + cur.children[i + 2..];
      ghost var w1 := Tree()[c := cur.Val()];
      assert w1 == w[c := WithoutItem(w[c], i).(children := cs[..i + 1] + cs[i + 2..])];
      child, next, zombie, left, j, pre, kk, post, q :=
        MergeChild(cur, ref, i, q0, w1, l, a, b, cs[..i], cs[i], cs[i + 2..], all);
    }

    /** What every round does: the child at index i takes in its sibling at q0. */
    method MergeChild(cur: HirbNode, ref: Option<Ident>, i: nat, q0: Ident, ghost w: Blobs, ghost l: nat,
                      ghost a: seq<Item>, ghost b: seq<Item>, ghost pre0: seq<Ident>, ghost k0: Ident,
                      ghost post0: seq<Ident>, ghost all: seq<Item>)
      returns (child: HirbNode, next: Ident, zombie: Ident, left: Option<Ident>, j: nat,
               ghost pre: seq<Ident>, ghost kk: Ident, ghost post: seq<Ident>, ghost q: Ident)
      requires l > 0 && Sound(oram, issued) && w == Tree()[At(ref) := cur.Val()]
      requires if ref.Some? then ref.value in oram.cached && cur != root else oram.cached == {} && cur == root
      requires PendingMerge(draws, w, At(ref), l, a, b, pre0, k0, post0, q0, height, all) && i == |pre0|
      modifies this`oram, this`issued, cur`children
      ensures fresh(child)
      ensures Merging(child, next, zombie, l - 1, LastSeg(draws, l, a), FirstSeg(draws, l, b), pre, kk, post, q, j, all)
      ensures l > 1 ==> left == Some(q)
      ensures oram.rounds == (if ref.Some? then old(oram).Finalize().rounds else old(oram.rounds))
      ensures |oram.open| == (if ref.Some? then 2 else |old(oram.open)| + 2)
    {
      hide Sound, Pregen, PendingMerge, Seps, Segs, Merged;
      ghost var c := At(ref);
      CachedPresent(oram, issued);
      next := NewIdent();
      Unused(oram, issued, next);
      pre, kk, post, q := MergeFromMerge(draws, w, c, l, a, b, pre0, k0, post0, q0, next, height, all);
      MergedShape(w[k0], w[q0]);
      var k := cur.children[i];
      cur.children := cur.children[i := next];
      assert cur.children == pre0 + [next] + post0;
      ghost var w1 := Tree()[c := cur.Val()];
      assert w1 - {k, q0} == MergeBase(w, c, pre0, k, post0, q0, next);
      assert w1[k] == w[k] && w1[q0] == w[q0];
      child, zombie, left, j := FetchMerge(cur, ref, k, next, q0, w1);
      assert (Tree() - {zombie})[next := child.Val()] == Merge(w, c, pre0, k, post0, q0, next);
    }

    /** Every further round: the sibling taken in before is destroyed first. */
    method MergeAgain(cur: HirbNode, ref: Ident, zombie0: Ident, i: nat, q0: Ident, ghost l: nat,
                      ghost a: seq<Item>, ghost b: seq<Item>, ghost pre0: seq<Ident>, ghost k0: Ident,
                      ghost post0: seq<Ident>, ghost all: seq<Item>)
      returns (child: HirbNode, next: Ident, zombie: Ident, left: Option<Ident>, j: nat,
               ghost pre: seq<Ident>, ghost kk: Ident, ghost post: seq<Ident>, ghost q: Ident)
      requires l > 0 && Merging(cur, ref, zombie0, l, a, b, pre0, k0, post0, q0, i, all)
      modifies this`oram, this`issued, cur`children
      ensures fresh(child)
      ensures Merging(child, next, zombie, l - 1, LastSeg(draws, l, a), FirstSeg(draws, l, b), pre, kk, post, q, j, all)
      ensures l > 1 ==> left == Some(q)
      ensures oram.rounds == old(oram).Finalize().rounds && |oram.open| == 2
    {
      hide Sound, PendingMerge, Seps, Segs;
      Apart(oram, issued, zombie0);
      ghost var w := (Tree() - {zombie0})[ref := cur.Val()];
      RemoveSound(oram, issued, zombie0);
      oram := oram.Remove(zombie0);
      assert Tree()[ref := cur.Val()] == w;
      child, next, zombie, left, j, pre, kk, post, q :=
        MergeChild(cur, Some(ref), i, q0, w, l, a, b, pre0, k0, post0, all);
    }

    /** The last write-back when leaves were merged. */
    method WriteMerged(cur: HirbNode, ref: Ident, zombie: Ident, ghost a: seq<Item>, ghost b: seq<Item>,
                       ghost pre: seq<Ident>, ghost kk: Ident, ghost post: seq<Ident>, ghost q: Ident, ghost i: nat,
                       ghost all: seq<Item>)
      requires Merging(cur, ref, zombie, 0, a, b, pre, kk, post, q, i, all)
      modifies this`oram
      ensures Sound(oram, issued) && Whole(draws, Tree(), height, all)
      ensures oram.cached == {} && oram.rounds == old(oram).Finalize().rounds && oram.open == []
    {
      hide Sound, PendingMerge, Whole;
      Apart(oram, issued, ref);
      Apart(oram, issued, zombie);
      ghost var w := (Tree() - {zombie})[ref := cur.Val()];
      MergeDone(draws, w, ref, a, b, pre, kk, post, q, height, all);
      SetSound(oram, issued, ref, cur.Val());
      oram := oram.Set(ref, cur.Val());
      RemoveSound(oram, issued, zombie);
      oram := oram.Remove(zombie);
      Finalize();
      assert Tree() == w;
    }

    /** The last write-back when the item was in a leaf. */
    method WriteShrunk(cur: HirbNode, ref: Option<Ident>, ghost w: Blobs, ghost a: seq<Item>, ghost z: Item,
                       ghost b: seq<Item>, ghost i: nat, ghost all: seq<Item>)
      requires Deleted(cur, ref, w, 0, a, z, b, i, all)
      modifies this`oram
      ensures Sound(oram, issued) && Whole(draws, Tree(), height, all)
      ensures if ref.None? then oram == old(oram) else oram == old(oram).Set(ref.value, cur.Val()).Finalize()
    {
      hide Sound, Pending, Whole, Seps;
      CachedPresent(oram, issued);
      LeafDeleteDone(draws, w, At(ref), a, z, b, height, all);
      if ref.Some? {
        Apart(oram, issued, ref.value);
        ghost var t := Tree()[ref.value := cur.Val()];
        SetSound(oram, issued, ref.value, cur.Val());
        oram := oram.Set(ref.value, cur.Val());
        Finalize();
        assert Tree() == t;
      } else {
        assert Tree() == Tree()[ROOT := cur.Val()];
      }
    }

    /** The loop that merges nodes down to the leaves, and the last write-back. */
    method MergePath(cur0: HirbNode, ref0: Option<Ident>, i0: nat, level0: nat,
                     ghost w: Blobs, ghost a0: seq<Item>, ghost z: Item, ghost b0: seq<Item>, ghost all: seq<Item>,
                     ghost before: Store<Node>)
      requires Deleted(cur0, ref0, w, level0, a0, z, b0, i0, all)
      requires if ref0.None? then level0 == height && oram == before else level0 < height
      requires before.Quiet() && Midway(before, oram, height - level0, 2)
      modifies this`oram, this`issued, cur0`children
      ensures Sound(oram, issued) && oram.Quiet()
      ensures Whole(draws, Tree(), height, all)
      ensures RoundsBy(before, oram, height, 2)
    {
      hide Sound, Pending, PendingMerge, Seps, Segs, Midway, RoundsBy, Whole, Tall;
      var cur, ref, i, level := cur0, ref0, i0, level0;
      var zombie: Option<Ident>, stepchild: Option<Ident> := None, None;
      ghost var a, b, pre, kk, post, q := a0, b0, [], ROOT, [], ROOT;
      while level > 0
        invariant 0 <= level <= level0
        invariant zombie.None? ==> cur == cur0 && ref == ref0 && i == i0 && level == level0 && a == a0 && b == b0
        invariant zombie.None? ==> Deleted(cur, ref, w, level, a, z, b, i, all) && oram == old(oram)
        invariant zombie.Some? ==> fresh(cur) && ref.Some? && level < level0
        invariant zombie.Some? ==> Merging(cur, ref.value, zombie.value, level, a, b, pre, kk, post, q, i, all)
        invariant zombie.Some? && level > 0 ==> stepchild == Some(q)
        invariant Midway(before, oram, height - level, 2)
      {
        ghost var st := oram;
        if zombie.Some? {
          var child, next, sib, left, j, p, c, s, r :=
            MergeAgain(cur, ref.value, zombie.value, i, stepchild.value, level, a, b, pre, kk, post, all);
          cur, ref, zombie, stepchild, i, pre, kk, post, q := child, Some(next), Some(sib), left, j, p, c, s, r;
        } else {
          var child, next, sib, left, j, p, c, s, r := MergeFirst(cur, ref, i, w, level, a, z, b, all);
          cur, ref, zombie, stepchild, i, pre, kk, post, q := child, Some(next), Some(sib), left, j, p, c, s, r;
        }
        MidwayStep(before, st, oram, height - level, 2);
        a, b := LastSeg(draws, level, a), FirstSeg(draws, level, b);
        level := level - 1;
      }
      ghost var st := oram;
      if zombie.Some? {
        WriteMerged(cur, ref.value, zombie.value, a, b, pre, kk, post, q, i, all);
      } else {
        WriteShrunk(cur, ref, w, a, z, b, i, all);
      }
      MidwayEnd(before, st, oram, height, 2);
    }

    /** The search that a deletion starts with. */
    method Locate(x: Hash, ghost a0: seq<Item>, ghost m: seq<Item>, ghost b0: seq<Item>, ghost all: seq<Item>,
                  ghost before: Store<Node>)
      returns (found: bool, cur: HirbNode, ref: Option<Ident>, level: nat, ghost a: seq<Item>, ghost b: seq<Item>)
      requires Searching(root, None, height, a0, m, b0, x, [], all, before, 2, false) && before.Quiet()
      modifies this`oram, this`issued, root`children
      ensures Searching(cur, ref, level, a, m, b, x, [], all, before, 2, false)
      ensures cur == root || fresh(cur)
      ensures found <==> BisectLeft(cur.lhashes, x) < |cur.lhashes| && cur.lhashes[BisectLeft(cur.lhashes, x)] == x
      ensures if found then |m| == 1 else level == 0 && m == [] && cur.Val().Leaf?
      ensures !found && height == 1 ==> Stale(x)
    {
      hide Sound, Pending, Whole, Seps, Segs, Midway, RoundsBy, Shows, Straddle, Tall, LastSeg, FirstSeg;
      cur, level, ref := root, height, None;
      a, b := a0, b0;
      while true
        invariant 0 <= level
        invariant ref.None? ==> cur == root
        invariant ref.Some? ==> fresh(cur) && (height == 1 ==> Stale(x))
        invariant Searching(cur, ref, level, a, m, b, x, [], all, before, 2, false)
        decreases level
      {
        Present(draws, cur.Val(), level, a, m, b, x);
        var childInd := BisectLeft(cur.lhashes, x);
        if childInd < |cur.lhashes| && cur.lhashes[childInd] == x {
          found := true;
          return;
        }
        if level == 0 {
          found := false;
          return;
        }
        Absent(draws, cur.Val(), level, a, m, b, x);
        var child, childRef := Visit(cur, ref, childInd, true, level, a, m, b, x, [], all, before);
        a, b := LastSeg(draws, level, a), FirstSeg(draws, level, b);
        level := level - 1;
        cur, ref := child, Some(childRef);
      }
    }

    /** Deletes a hash.  A false result is the KeyError for a hash that is not there, which leaves the
        reads of the last step open. */
    method DeleteItem(x: Hash) returns (present: bool)
      requires Valid()
      modifies this`oram, this`issued, this`size, this`items, root
      ensures Valid()
      ensures present <==> x in old(Contents())
      ensures Contents() == old(Contents()) - {x}
      ensures size == old(size) - if present then 1 else 0
      ensures present ==> oram.Quiet() && RoundsBy(old(oram).Finalize(), oram, height, 2)
      ensures !present ==> Midway(old(oram).Finalize(), oram, height, 2)
      ensures !present && height == 1 ==> Stale(x)
    {
      hide Sound, Pending, Whole, Seps, Segs, Midway, RoundsBy, Shows, Straddle, Tall, AsMap, Sorted;
      Finalize();
      ghost var a, m, b := CutAround(items, x);
      ghost var all := a + [] + b;
      assert |all| == |items| - |m| && (m == [] ==> all == items);
      SortedChange(a, m, [], b, x);
      AsMapChange(a, m, [], b, x);
      ghost var before := oram;
      PendingAll(draws, Tree(), height, items, all);
      MidwayStart(before, 2);
      var found, cur, ref, level, a', b' := Locate(x, a, m, b, all, before);
      if !found {
        AbsentDone(draws, Tree(), At(ref), a', m, b', height, items, all);
        return false;
      }
      RemoveItem(cur, ref, level, BisectLeft(cur.lhashes, x), x, a', m, b', all, before);
      size := size - 1;
      items := all;
      present := true;
    }

    /** Takes the item out of the node in hand and merges the nodes below. */
    method RemoveItem(cur: HirbNode, ref: Option<Ident>, level: nat, i: nat, x: Hash,
                      ghost a: seq<Item>, ghost m: seq<Item>, ghost b: seq<Item>, ghost all: seq<Item>,
                      ghost before: Store<Node>)
      requires Searching(cur, ref, level, a, m, b, x, [], all, before, 2, false) && before.Quiet()
      requires i == BisectLeft(cur.lhashes, x) < |cur.lhashes| && cur.lhashes[i] == x
      modifies this`oram, this`issued, cur
      ensures Sound(oram, issued) && oram.Quiet()
      ensures Whole(draws, Tree(), height, all)
      ensures RoundsBy(before, oram, height, 2)
    {
      hide Sound, Pending, Whole, Seps, Segs, LastSeg, FirstSeg, Midway, RoundsBy, Shows, Straddle, Tall, BisectLeft,
        Lost;
      Present(draws, cur.Val(), level, a, m, b, x);
      Land(draws, cur.Val(), level, a, m, b, x);
      if ref.Some? {
        Apart(oram, issued, ref.value);
      }
      ghost var t := Tree();
      assert t[At(ref)] == cur.Val();
      cur.lhashes := cur.lhashes[..i] + cur.lhashes[i + 1..];
      cur.values := cur.values[..i] + cur.values[i + 1..];
      assert Tree()[At(ref) := cur.Val()] == t[At(ref) := WithoutItem(t[At(ref)], i)];
      MergePath(cur, ref, i, level, t, a, m[0], b, all, before);
    }

    // -------------------------------------------------------------- building

    /** The nodes of a tower that stands on level c and has taken in the items q. */
    ghost predicate Standing(tower: seq<HirbNode>, t: seq<Node>, c: nat, q: seq<Item>)
      reads this, tower
    {
      && |tower| == |t|
      && (forall i :: 0 <= i < |tower| ==> tower[i].Val() == t[i])
      && (forall i, j :: 0 <= i < j < |tower| ==> tower[i] != tower[j])
      && Sound(oram, issued) && oram.Quiet()
      && Tower(draws, oram.blobs, t, height, c, q)
      && TowerOwn(oram.blobs, t, height) == oram.blobs.Keys
    }

    /** Writes the bottom node of the tower and adds it to the node above. */
    method CloseOff(tower: seq<HirbNode>, ghost t: seq<Node>, ghost c: nat, ghost q: seq<Item>)
      returns (rest: seq<HirbNode>, ghost t': seq<Node>)
      requires Standing(tower, t, c, q) && c < height
      modifies this`oram, this`issued, tower
      ensures |tower| >= 2 && rest == tower[..|tower| - 1]
      ensures Standing(rest, t', c + 1, q)
      ensures oram.rounds == old(oram.rounds)
    {
      hide Sound, Tower, TowerOwn;
      var id := NewIdent();
      Unused(oram, issued, id);
      TowerSize(draws, oram.blobs, t, height, c, q);
      Close(draws, oram.blobs, t, height, c, q, id);
      t' := Closed(t, id);
      CreateSound(oram, issued, id);
      oram := oram.Create(id, Blank);
      var node := tower[|tower| - 1];
      SetSound(oram, issued, id, node.Val());
      oram := oram.Set(id, node.Val());
      Finalize();
      rest := tower[..|tower| - 1];
      var above := rest[|rest| - 1];
      above.children := above.children + [id];
      assert forall i :: 0 <= i < |rest| ==> rest[i].Val() == t'[i];
      assert oram.blobs == old(oram.blobs)[id := t[|t| - 1]];
    }

    /** Takes an item into the tower and puts new nodes below it. */
    method TakeIn(tower0: seq<HirbNode>, item: Item, ghost t0: seq<Node>, ghost q: seq<Item>)
      returns (tower: seq<HirbNode>, ghost t: seq<Node>)
      requires Standing(tower0, t0, 0, q)
      modifies this`oram, this`issued, tower0
      ensures forall i :: 0 <= i < |tower| ==> tower[i] in tower0 || fresh(tower[i])
      ensures Standing(tower, t, 0, q + [item])
      ensures |tower| == height + 1
      ensures oram.rounds == old(oram.rounds)
    {
      hide Sound, Tower, TowerOwn, Tall, Empties;
      tower, t := tower0, t0;
      var lheight := GetHeight(item.hash);
      for i := 0 to lheight
        invariant tower <= tower0
        invariant Standing(tower, t, i, q)
        invariant oram.rounds == old(oram.rounds)
      {
        tower, t := CloseOff(tower, t, i, q);
      }
      TowerSize(draws, oram.blobs, t, height, lheight, q);
      Add(draws, oram.blobs, t, height, lheight, q, item);
      ghost var base := t[..|t| - 1] + [WithLast(t[|t| - 1], item)];
      t := base + Empties(lheight);
      var bottom := tower[|tower| - 1];
      bottom.lhashes := bottom.lhashes + [item.hash];
      bottom.values := bottom.values + [item.value];
      tower := Extend(tower, lheight, base);
    }

    /** Puts new nodes below the tower, down to a leaf. */
    method Extend(tower0: seq<HirbNode>, n: nat, ghost base: seq<Node>) returns (tower: seq<HirbNode>)
      requires |tower0| == |base| && forall i :: 0 <= i < |tower0| ==> tower0[i].Val() == base[i]
      requires forall i, j :: 0 <= i < j < |tower0| ==> tower0[i] != tower0[j]
      ensures tower0 <= tower && |tower| == |base| + n && forall i :: |tower0| <= i < |tower| ==> fresh(tower[i])
      ensures forall i :: 0 <= i < |tower| ==> tower[i].Val() == (base + Empties(n))[i]
      ensures forall i, j :: 0 <= i < j < |tower| ==> tower[i] != tower[j]
    {
      hide Empties;
      tower := tower0;
      for h := 0 to n
        invariant tower0 <= tower && |tower| == |base| + h && forall i :: |tower0| <= i < |tower| ==> fresh(tower[i])
        invariant forall i :: 0 <= i < |tower| ==> tower[i].Val() == (base + Empties(n))[i]
        invariant forall i, j :: 0 <= i < j < |tower| ==> tower[i] != tower[j]
      {
        EmptiesAt(n, h);
        var node;
        if h == n - 1 {
          node := new HirbNode.MakeLeaf();
        } else {
          node := new HirbNode.MakeInternal(None);
        }
        tower := tower + [node];
      }
    }

    /** The empty tower. */
    method StartTower(initialHeight: nat) returns (tower: seq<HirbNode>, ghost t: seq<Node>)
      requires oram == Empty() && issued == {ROOT} && height == 0 && growAt == Threshold(leafB, b, 0)
      requires leafB >= 1 && b >= 1
      modifies this`height, this`growAt
      ensures fresh(tower) && height == initialHeight && growAt == Threshold(leafB, b, height)
      ensures Standing(tower, t, 0, [])
    {
      hide Sound, Tower, TowerOwn, Threshold;
      tower := [];
      while height < initialHeight
        invariant height <= initialHeight && |tower| == height && fresh(tower)
        invariant growAt == Threshold(leafB, b, height)
        invariant forall i :: 0 <= i < |tower| ==> tower[i].Val() == Internal([], [], [])
        invariant forall i, j :: 0 <= i < j < |tower| ==> tower[i] != tower[j]
      {
        var node := new HirbNode.MakeInternal(None);
        tower := tower + [node];
        ThresholdSteps(leafB, b, height);
        growAt := growAt * b;
        height := height + 1;
      }
      var leaf := new HirbNode.MakeLeaf();
      tower := tower + [leaf];
      t := Empties(height + 1);
      forall i | 0 <= i < |tower| ensures tower[i].Val() == t[i] {
        EmptiesAt(height + 1, i);
      }
      EmptyTower(draws, oram.blobs, height);
      Begin(oram, issued);
    }

    /** Takes all the items into the tower, in the order of their hashes. */
    method Fill(tower0: seq<HirbNode>, data: seq<Item>, ghost t0: seq<Node>)
      returns (tower: seq<HirbNode>, ghost t: seq<Node>)
      requires Standing(tower0, t0, 0, []) && oram.rounds == []
      modifies this`oram, this`issued, tower0
      ensures forall i :: 0 <= i < |tower| ==> tower[i] in tower0 || fresh(tower[i])
      ensures Standing(tower, t, 0, data) && oram.rounds == []
    {
      hide Standing;
      tower, t := tower0, t0;
      for i := 0 to |data|
        invariant forall j :: 0 <= j < |tower| ==> tower[j] in tower0 || fresh(tower[j])
        invariant Standing(tower, t, 0, data[..i]) && oram.rounds == []
      {
        tower, t := TakeIn(tower, data[i], t, data[..i]);
        assert data[..i] + [data[i]] == data[..i + 1];
      }
      assert data[..|data|] == data;
    }

    /** Closes off the whole tower; its top is the root. */
    method Finish(tower0: seq<HirbNode>, ghost t0: seq<Node>, ghost q: seq<Item>)
      requires Standing(tower0, t0, 0, q) && oram.rounds == []
      modifies this`oram, this`issued, this`root, tower0
      ensures Sound(oram, issued) && oram.Quiet() && oram.rounds == [] && ROOT !in oram.blobs
      ensures root in tower0 && Whole(draws, Tree(), height, q)
    {
      hide Sound, Tower, TowerOwn, Whole;
      var tower := tower0;
      ghost var t, c := t0, 0;
      TowerSize(draws, oram.blobs, t, height, 0, q);
      while |tower| > 1
        invariant c <= height && |tower| == height - c + 1
        invariant tower <= tower0
        invariant Standing(tower, t, c, q) && oram.rounds == []
      {
        tower, t := CloseOff(tower, t, c, q);
        c := c + 1;
      }
      RootApart(oram, issued);
      TowerDone(draws, oram.blobs, t, height, q);
      root := tower[0];
    }

    /** Builds a tree of a given height from items sorted by hash.  Built items are not counted in
        the size. */
    constructor (draws: Draws, leafB: nat, b: nat, initialHeight: nat, data: seq<Item>)
      requires leafB >= 1 && b >= 1 && Sorted(data)
      ensures Valid() && oram.Quiet() && fresh(root)
      ensures Contents() == AsMap(data) && uncounted == |data| && size == 0
      ensures height == initialHeight && this.draws == draws && this.leafB == leafB && this.b == b
      ensures oram.rounds == []
      ensures Pow(b, height) > 0
      ensures var g := growAt / Pow(b, height); growAt == g * Pow(b, height) && 4 * (g - 1) < leafB <= 4 * g
    {
      this.draws, this.leafB, this.b := draws, leafB, b;
      oram := Empty();
      issued := {ROOT};
      height, size := 0, 0;
      growAt := (leafB + 3) / 4;
      root := new HirbNode.MakeLeaf();
      items, uncounted := data, |data|;
      new;
      hide Standing, Sound, Whole, Sorted, AsMap, Threshold, Pow;
      ThresholdSteps(leafB, b, 0);
      var empty, t0 := StartTower(initialHeight);
      assert size == 0 && items == data && growAt == Threshold(leafB, b, height);
      var tower, t := Fill(empty, data, t0);
      assert size == 0 && items == data && growAt == Threshold(leafB, b, height);
      Finish(tower, t, data);
      assert size == 0 && items == data && growAt == Threshold(leafB, b, height);
      ThresholdSteps(leafB, b, height);
      ThresholdUnit(leafB, b, height);
    }
  }
}

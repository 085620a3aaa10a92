/** Adding a level on top of the tree. */
module HirbGrow {
  import opened HirbShape
  import opened BlobMap
  import opened HirbStore
  import opened HirbSplit
  import opened HirbNodes

  /** The level of a hash in a tree of height h. */
  ghost function Capped(d: Draws, x: Hash, h: nat): (ht: nat)
    ensures ht <= h && Tall(d, x, ht)
    ensures ht < h ==> !Tall(d, x, ht + 1)
  {
    if Tall(d, x, h) then h
    else
      assert h > 0;
      Capped(d, x, h - 1)
  }

  lemma TallDown(d: Draws, x: Hash, l: nat, l': nat)
    requires Tall(d, x, l) && l' <= l
    ensures Tall(d, x, l')
  {
  }

  /** There is only one level that the draws allow. */
  lemma {:induction false} CappedUnique(d: Draws, x: Hash, h: nat, ht: nat)
    requires ht <= h && Tall(d, x, ht) && (ht < h ==> !Tall(d, x, ht + 1))
    ensures ht == Capped(d, x, h)
  {
    if ht < h {
      TallUp(d, x, ht + 1, h);
      CappedUnique(d, x, h - 1, ht);
    }
  }

  lemma TallUp(d: Draws, x: Hash, l: nat, l': nat)
    requires !Tall(d, x, l) && l <= l'
    ensures !Tall(d, x, l')
  {
    var k: nat :| k < l && d(x, k) != 0;
  }

  /** Raising the cap by one moves only the items of the root, and those by at most one level. */
  lemma CapRaised(d: Draws, x: Hash, h: nat)
    ensures Capped(d, x, h) < h ==> Capped(d, x, h + 1) == Capped(d, x, h)
    ensures Capped(d, x, h) == h ==> h <= Capped(d, x, h + 1) <= h + 1
  {
    if Tall(d, x, h + 1) {
      TallDown(d, x, h + 1, h);
      CappedUnique(d, x, h, h);
    }
  }

  /** The separator at an index, and the items before and after it. */
  lemma {:induction false} SepsAt(d: Draws, l: nat, s: seq<Item>, i: nat)
    returns (s1: seq<Item>, y: Item, s2: seq<Item>)
    requires i < |Seps(d, l, s)|
    ensures s == s1 + [y] + s2 && Tall(d, y.hash, l) && y == Seps(d, l, s)[i]
    ensures |Seps(d, l, s1)| == i
  {
    if Tall(d, s[0].hash, l) && i == 0 {
      s1, y, s2 := [], s[0], s[1..];
    } else {
      s1, y, s2 := SepsAt(d, l, s[1..], if Tall(d, s[0].hash, l) then i - 1 else i);
      s1 := [s[0]] + s1;
      assert s1[1..] == s1[1..];
    }
  }

  /** Items that are tall enough for level l + 1 are separators of level l. */
  lemma NoneTaller(d: Draws, l: nat, s: seq<Item>)
    requires NoneTall(d, l + 1, Seps(d, l, s))
    ensures NoneTall(d, l + 1, s)
  {
    forall i | 0 <= i < |s| ensures !Tall(d, s[i].hash, l + 1) {
      SepsMember(d, l, s, s[i]);
      if Tall(d, s[i].hash, l) {
        var j :| 0 <= j < |Seps(d, l, s)| && Seps(d, l, s)[j] == s[i];
      } else {
        TallUp(d, s[i].hash, l, l + 1);
      }
    }
  }

  /** Splitting a node at one of its own items leaves two whole subtrees. */
  lemma SplitAtItem(d: Draws, w: Blobs, k: Ident, l: nat, s1: seq<Item>, y: Item, s2: seq<Item>, r: Ident, i: nat)
    requires Rep(d, w, k, l, s1 + [y] + s2) && Tall(d, y.hash, l) && r !in w && i == |Seps(d, l, s1)|
    ensures !w[k].Blank? && i < |w[k].lhashes| == |w[k].values| && (w[k].Internal? ==> i + 1 < |w[k].children|)
    ensures var w' := w[k := LeftPart(w[k], i)][r := RightPart(w[k], i + 1)];
      && Rep(d, w', k, l, s1) && Rep(d, w', r, l, s2)
      && Own(w', k, l) !! Own(w', r, l)
      && Own(w', k, l) + Own(w', r, l) == Own(w, k, l) + {r}
  {
    hide RepAll, OwnAll, Seps, Segs, Tall;
    SegsAround(d, l, s1, y, s2);
    HashesCut(Seps(d, l, s1), y, Seps(d, l, s2));
    RepFrame(d, w, w, k, l, s1 + [y] + s2);
    if l > 0 {
      var cs := w[k].children;
      RepAllLength(d, w, cs, l - 1, Segs(d, l, s1 + [y] + s2));
      var w' := w[k := LeftPart(w[k], i)][r := RightPart(w[k], i + 1)];
      assert cs == cs[..i + 1] + cs[i + 1..];
      SplitChildren(d, w, w', k, r, l - 1, cs[..i + 1], cs[i + 1..], Segs(d, l, s1), Segs(d, l, s2));
    }
  }

  lemma SplitChildren(d: Draws, w: Blobs, w': Blobs, k: Ident, r: Ident, l: nat, ca: seq<Ident>, cb: seq<Ident>,
                      sa: seq<seq<Item>>, sb: seq<seq<Item>>)
    requires RepAll(d, w, ca + cb, l, sa + sb) && |ca| == |sa|
    requires k !in OwnAll(w, ca + cb, l) && r !in w && Agree(w, w', w.Keys - {k})
    ensures RepAll(d, w', ca, l, sa) && RepAll(d, w', cb, l, sb)
    ensures OwnAll(w', ca, l) !! OwnAll(w', cb, l)
    ensures OwnAll(w', ca, l) + OwnAll(w', cb, l) == OwnAll(w, ca + cb, l)
    ensures k !in OwnAll(w', ca, l) + OwnAll(w', cb, l) && r !in OwnAll(w', ca, l) + OwnAll(w', cb, l)
  {
    RepAllConcat(d, w, ca, cb, l, sa, sb);
    OwnAllConcat(w, ca, cb, l);
    RepAllFrame(d, w, w, ca, l, sa);
    RepAllFrame(d, w, w, cb, l, sb);
    RepAllFrame(d, w, w', ca, l, sa);
    RepAllFrame(d, w, w', cb, l, sb);
  }

  lemma HashesCut(p: seq<Item>, x: Item, q: seq<Item>)
    ensures Hashes(p + [x] + q)[..|p|] == Hashes(p) && Hashes(p + [x] + q)[|p| + 1..] == Hashes(q)
    ensures Values(p + [x] + q)[..|p|] == Values(p) && Values(p + [x] + q)[|p| + 1..] == Values(q)
  {
  }

  // ---------------------------------------------------------------- the new root while it is filled

  /** The items p have been dealt with: their tall ones are in the new root, whose children `done`
      hold the others.  The items r are still in the old root's remainder, at k. */
  ghost predicate Growing(d: Draws, w: Blobs, l: nat, p: seq<Item>, r: seq<Item>, done: seq<Ident>, k: Ident) {
    && LastSeg(d, l + 1, p) == []
    && |done| == |Seps(d, l + 1, p)|
    && RepAll(d, w, done, l, Front(d, l + 1, p))
    && Rep(d, w, k, l, r)
    && OwnAll(w, done, l) !! Own(w, k, l)
    && OwnAll(w, done, l) + Own(w, k, l) == w.Keys
    && ROOT !in w
  }

  lemma GrowingNode(d: Draws, w: Blobs, l: nat, p: seq<Item>, s1: seq<Item>, y: Item, s2: seq<Item>, done: seq<Ident>,
                    k: Ident)
    requires Growing(d, w, l, p, s1 + [y] + s2, done, k) && Sorted(s1 + [y] + s2) && Tall(d, y.hash, l)
    ensures Shaped(w[k])
    ensures var i := |Seps(d, l, s1)|;
      && i < |w[k].lhashes| && w[k].lhashes[i] == y.hash && w[k].values[i] == y.value
      && BisectLeft(w[k].lhashes, y.hash) == i
    ensures Sorted(s2)
  {
    hide RepAll, OwnAll, Seps, Segs, Tall;
    var s := s1 + [y] + s2;
    if l > 0 {
      RepAllLength(d, w, w[k].children, l - 1, Segs(d, l, s));
    }
    assert s[|s1|] == y;
    assert forall j :: 0 <= j < |s1| ==> s1[j] == s[j];
    assert forall j :: 0 <= j < |s2| ==> s2[j] == s[|s1| + 1 + j];
    FindIn(d, l, s1, [y], s2, y.hash);
  }

  ghost predicate Shaped(n: Node) {
    !n.Blank? && |n.values| == |n.lhashes| && (n.Internal? ==> |n.children| == |n.lhashes| + 1)
  }

  lemma GrowStart(d: Draws, w: Blobs, l: nat, s: seq<Item>, k: Ident, w0: Blobs)
    requires Whole(d, w, l, s) && k !in w && w0 == (w - {ROOT})[k := w[ROOT]]
    ensures Growing(d, w0, l, [], s, [], k)
  {
    RepMoved(d, w, w0, ROOT, k, l, s);
  }

  /** An item is promoted to the new root: the remainder is split there, the part before it going
      back to k and the part after it to k'. */
  lemma GrowStep(d: Draws, w: Blobs, l: nat, p: seq<Item>, s1: seq<Item>, y: Item, s2: seq<Item>, done: seq<Ident>,
                 k: Ident, k': Ident, i: nat)
    requires Growing(d, w, l, p, s1 + [y] + s2, done, k)
    requires NoneTall(d, l + 1, s1) && Tall(d, y.hash, l + 1) && k' !in w && k' != ROOT && i == |Seps(d, l, s1)|
    ensures !w[k].Blank? && i < |w[k].lhashes| == |w[k].values| && (w[k].Internal? ==> i + 1 < |w[k].children|)
    ensures Growing(d, w[k := LeftPart(w[k], i)][k' := RightPart(w[k], i + 1)], l, p + s1 + [y], s2, done + [k], k')
    ensures Seps(d, l + 1, p + s1 + [y]) == Seps(d, l + 1, p) + [y]
  {
    hide Rep, Segs, Seps, LeftPart, RightPart, Tall;
    TallDown(d, y.hash, l + 1, l);
    SplitAtItem(d, w, k, l, s1, y, s2, k', i);
    var w' := w[k := LeftPart(w[k], i)][k' := RightPart(w[k], i + 1)];
    RepAllFrame(d, w, w', done, l, Front(d, l + 1, p));
    PromotedSegs(d, l + 1, p, s1, y);
    RepAllSnoc(d, w', done, k, l, Front(d, l + 1, p), s1);
  }

  lemma PromotedSegs(d: Draws, l: nat, p: seq<Item>, s1: seq<Item>, y: Item)
    requires LastSeg(d, l, p) == [] && NoneTall(d, l, s1) && Tall(d, y.hash, l)
    ensures Seps(d, l, p + s1 + [y]) == Seps(d, l, p) + [y]
    ensures Front(d, l, p + s1 + [y]) == Front(d, l, p) + [s1]
    ensures LastSeg(d, l, p + s1 + [y]) == []
  {
    hide Tall, Glue, Seps, Segs;
    NoSeps(d, l, s1);
    SegsMeet(d, l, p, s1);
    SepsConcat(d, l, p, s1);
    SegsSnoc(d, l, p + s1, y);
    assert [] + s1 == s1;
  }

  /** With no item left to promote, the new root is the top of a tree. */
  lemma GrowDone(d: Draws, w: Blobs, l: nat, p: seq<Item>, r: seq<Item>, done: seq<Ident>, k: Ident, root: Node)
    requires Growing(d, w, l, p, r, done, k)
    requires NoneTall(d, l + 1, Seps(d, l, r))
    requires root == Internal(Hashes(Seps(d, l + 1, p)), Values(Seps(d, l + 1, p)), done + [k])
    ensures Whole(d, w[ROOT := root], l + 1, p + r)
  {
    hide RepAll, Segs, Seps, Tall, Glue;
    NoneTaller(d, l, r);
    NoSeps(d, l + 1, r);
    SegsMeet(d, l + 1, p, r);
    SepsConcat(d, l + 1, p, r);
    assert [] + r == r;
    assert Segs(d, l + 1, p + r) == Front(d, l + 1, p) + [r];
    RepAllSnoc(d, w, done, k, l, Front(d, l + 1, p), r);
    RepAllFrame(d, w, w[ROOT := root], done + [k], l, Front(d, l + 1, p) + [r]);
  }

  lemma GrowingLength(d: Draws, w: Blobs, l: nat, p: seq<Item>, r: seq<Item>, done: seq<Ident>, k: Ident)
    requires Growing(d, w, l, p, r, done, k)
    ensures !w[k].Blank? && |w[k].lhashes| == |Seps(d, l, r)|
  {
  }

  lemma PartLengths(n: Node, i: nat)
    requires Shaped(n) && i < |n.lhashes|
    ensures |RightPart(n, i + 1).lhashes| + i + 1 == |n.lhashes|
  {
  }

  /** What is known about the item at an index of the old root, and about the ones before it. */
  lemma PromoteChoice(d: Draws, l: nat, r: seq<Item>, s1: seq<Item>, y: Item, s2: seq<Item>, i: nat)
    requires r == s1 + [y] + s2 && Tall(d, y.hash, l) && i == |Seps(d, l, s1)|
    ensures i < |Seps(d, l, r)| && Seps(d, l, r)[..i + 1] == Seps(d, l, r)[..i] + [y]
    ensures NoneTall(d, l + 1, Seps(d, l, r)[..i]) ==> NoneTall(d, l + 1, s1)
    ensures Capped(d, y.hash, l + 1) >= l
    ensures Capped(d, y.hash, l + 1) == l + 1 <==> Tall(d, y.hash, l + 1)
    ensures NoneTall(d, l + 1, Seps(d, l, r)[..i]) && !Tall(d, y.hash, l + 1) ==>
            NoneTall(d, l + 1, Seps(d, l, r)[..i + 1])
  {
    SegsAround(d, l, s1, y, s2);
    assert Seps(d, l, r)[..i] == Seps(d, l, s1);
    if NoneTall(d, l + 1, Seps(d, l, s1)) {
      NoneTaller(d, l, s1);
    }
    CappedUnique(d, y.hash, l, l);
    CapRaised(d, y.hash, l);
  }

  lemma EmptyRun(d: Draws, l: nat)
    ensures Seps(d, l, []) == [] && NoneTall(d, l, [])
  {
  }
}

/** Splitting and merging the nodes on the path below an inserted or deleted item. */
module HirbSplit {
  import opened HirbShape
  import opened BlobMap
  import opened HirbStore

  /** What stays in a node that is split at index i, and what its new sibling gets from index j on.
      With i == j an internal node leaves the child between them in both halves. */
  function LeftPart(n: Node, i: nat): Node
    requires !n.Blank? && i <= |n.lhashes| && i <= |n.values| && (n.Internal? ==> i < |n.children|)
  {
    if n.Leaf? then Leaf(n.lhashes[..i], n.values[..i])
    else Internal(n.lhashes[..i], n.values[..i], n.children[..i + 1])
  }

  function RightPart(n: Node, j: nat): Node
    requires !n.Blank? && j <= |n.lhashes| && j <= |n.values| && (n.Internal? ==> j < |n.children|)
  {
    if n.Leaf? then Leaf(n.lhashes[j..], n.values[j..])
    else Internal(n.lhashes[j..], n.values[j..], n.children[j..])
  }

  // ---------------------------------------------------------------- two subtrees at once

  /** In w1 the subtrees at c and r hold a and b, and outside them w1 is what w was outside `gone`. */
  ghost predicate FitsTwo(d: Draws, w: Blobs, gone: set<Ident>, w1: Blobs,
                          c: Ident, r: Ident, l: nat, a: seq<Item>, b: seq<Item>) {
    && Rep(d, w1, c, l, a)
    && Rep(d, w1, r, l, b)
    && Own(w1, c, l) !! Own(w1, r, l)
    && Swap(w, gone, w1, Own(w1, c, l) + Own(w1, r, l))
  }

  /** The nodes c and r are the halves of a split node: c is to hold a and r is to hold b, but
      the child k between them still holds items of both and is named by both. */
  ghost predicate Torn(d: Draws, w: Blobs, c: Ident, r: Ident, l: nat, a: seq<Item>, b: seq<Item>,
                       pre: seq<Ident>, k: Ident, post: seq<Ident>)
  {
    && c in w && r in w && c != r
    && if l == 0 then
         w[c] == Leaf(Hashes(a), Values(a)) && w[r] == Leaf(Hashes(b), Values(b))
       else
         && w[c] == Internal(Hashes(Seps(d, l, a)), Values(Seps(d, l, a)), pre + [k])
         && w[r] == Internal(Hashes(Seps(d, l, b)), Values(Seps(d, l, b)), [k] + post)
         && Sides(d, w, c, pre, Front(d, l, a), post, Segs(d, l, b)[1..], l - 1)
         && Rep(d, w, k, l - 1, LastSeg(d, l, a) + FirstSeg(d, l, b))
         && r !in Flank(w, pre, post, l - 1)
         && Flank(w, pre, post, l - 1) !! Own(w, k, l - 1)
         && c !in Own(w, k, l - 1) && r !in Own(w, k, l - 1)
  }

  ghost function TornOwn(w: Blobs, c: Ident, r: Ident, l: nat, pre: seq<Ident>, k: Ident,
                         post: seq<Ident>): set<Ident> {
    if l == 0 then {c, r} else {c, r} + Flank(w, pre, post, l - 1) + Own(w, k, l - 1)
  }

  lemma HashesConcat(a: seq<Item>, b: seq<Item>)
    ensures Hashes(a + b) == Hashes(a) + Hashes(b)
    ensures Values(a + b) == Values(a) + Values(b)
  {
  }

  lemma TearInternal(d: Draws, w: Blobs, k: Ident, l: nat, a: seq<Item>, b: seq<Item>, r: Ident,
                     pre: seq<Ident>, kk: Ident, post: seq<Ident>, w': Blobs)
    requires l > 0 && Rep(d, w, k, l, a + b)
    requires r !in w
    requires w[k].children == pre + [kk] + post && |pre| == |Seps(d, l, a)|
    requires w' == w[k := Internal(Hashes(Seps(d, l, a)), Values(Seps(d, l, a)), pre + [kk])]
                    [r := Internal(Hashes(Seps(d, l, b)), Values(Seps(d, l, b)), [kk] + post)]
    ensures Torn(d, w', k, r, l, a, b, pre, kk, post)
    ensures TornOwn(w', k, r, l, pre, kk, post) == Own(w, k, l) + {r}
  {
    AroundMeet(d, w, k, l, a, b, pre, kk, post);
    TearKeeps(d, w, w', k, r, l - 1, pre, kk, post, Front(d, l, a), LastSeg(d, l, a) + FirstSeg(d, l, b),
              Segs(d, l, b)[1..]);
  }

  lemma TearKeeps(d: Draws, w: Blobs, w': Blobs, k: Ident, r: Ident, l: nat, pre: seq<Ident>, kk: Ident,
                  post: seq<Ident>, sPre: seq<seq<Item>>, sk: seq<Item>, sPost: seq<seq<Item>>)
    requires Sides(d, w, k, pre, sPre, post, sPost, l) && Rep(d, w, kk, l, sk)
    requires Flank(w, pre, post, l) !! Own(w, kk, l)
    requires k !in Own(w, kk, l)
    requires r !in w && Agree(w, w', w.Keys - {k})
    ensures Sides(d, w', k, pre, sPre, post, sPost, l) && Rep(d, w', kk, l, sk)
    ensures Flank(w', pre, post, l) == Flank(w, pre, post, l) && Own(w', kk, l) == Own(w, kk, l)
    ensures r !in Flank(w', pre, post, l) && r !in Own(w', kk, l)
  {
    SidesKept(d, w, w, k, pre, sPre, post, sPost, l);
    RepFrame(d, w, w, kk, l, sk);
    SidesKept(d, w, w', k, pre, sPre, post, sPost, l);
    RepFrame(d, w, w', kk, l, sk);
  }

  lemma TearLeaf(d: Draws, w: Blobs, k: Ident, a: seq<Item>, b: seq<Item>, r: Ident, w': Blobs,
                 pre: seq<Ident>, kk: Ident, post: seq<Ident>)
    requires k in w && r !in w
    requires w' == w[k := Leaf(Hashes(Seps(d, 0, a)), Values(Seps(d, 0, a)))]
                    [r := Leaf(Hashes(Seps(d, 0, b)), Values(Seps(d, 0, b)))]
    ensures Torn(d, w', k, r, 0, a, b, pre, kk, post)
    ensures TornOwn(w', k, r, 0, pre, kk, post) == Own(w, k, 0) + {r}
  {
    LeafSeps(d, a);
    LeafSeps(d, b);
  }

  lemma HashesMeet(d: Draws, l: nat, a: seq<Item>, b: seq<Item>)
    ensures Hashes(Seps(d, l, a + b)) == Hashes(Seps(d, l, a)) + Hashes(Seps(d, l, b))
    ensures Values(Seps(d, l, a + b)) == Values(Seps(d, l, a)) + Values(Seps(d, l, b))
  {
    SepsConcat(d, l, a, b);
    HashesConcat(Seps(d, l, a), Seps(d, l, b));
  }

  /** The children of a node around the one where the items a end and the items b begin. */
  lemma AroundMeet(d: Draws, w: Blobs, c: Ident, l: nat, a: seq<Item>, b: seq<Item>, pre: seq<Ident>, k: Ident,
                   post: seq<Ident>)
    requires l > 0 && Rep(d, w, c, l, a + b)
    requires w[c].children == pre + [k] + post && |pre| == |Seps(d, l, a)|
    ensures Sides(d, w, c, pre, Front(d, l, a), post, Segs(d, l, b)[1..], l - 1)
    ensures Rep(d, w, k, l - 1, LastSeg(d, l, a) + FirstSeg(d, l, b))
    ensures Flank(w, pre, post, l - 1) !! Own(w, k, l - 1)
    ensures Own(w, c, l) == {c} + Flank(w, pre, post, l - 1) + Own(w, k, l - 1) <= w.Keys
    ensures c !in Own(w, k, l - 1) && k in w && k != c
  {
    SegsMeet(d, l, a, b);
    Around(d, w, c, l, a + b, pre, k, post, Front(d, l, a), LastSeg(d, l, a) + FirstSeg(d, l, b), Segs(d, l, b)[1..]);
  }

  lemma PartsOfConcat(d: Draws, l: nat, n: Node, a: seq<Item>, b: seq<Item>)
    requires !n.Blank? && n.lhashes == Hashes(Seps(d, l, a + b)) && n.values == Values(Seps(d, l, a + b))
    ensures var i := |Seps(d, l, a)|;
      && i <= |n.lhashes| == |n.values|
      && n.lhashes[..i] == Hashes(Seps(d, l, a)) && n.values[..i] == Values(Seps(d, l, a))
      && n.lhashes[i..] == Hashes(Seps(d, l, b)) && n.values[i..] == Values(Seps(d, l, b))
  {
    SepsConcat(d, l, a, b);
    HashesConcat(Seps(d, l, a), Seps(d, l, b));
  }

  /** Splitting a node tears its subtree. */
  lemma Tear(d: Draws, w: Blobs, k: Ident, l: nat, a: seq<Item>, b: seq<Item>, r: Ident, i: nat)
    returns (pre: seq<Ident>, kk: Ident, post: seq<Ident>)
    requires Rep(d, w, k, l, a + b)
    requires r !in w && i == |Seps(d, l, a)|
    ensures i <= |w[k].lhashes| && i <= |w[k].values| && (w[k].Internal? ==> i < |w[k].children|)
    ensures var w' := w[k := LeftPart(w[k], i)][r := RightPart(w[k], i)];
      && Torn(d, w', k, r, l, a, b, pre, kk, post)
      && TornOwn(w', k, r, l, pre, kk, post) == Own(w, k, l) + {r}
  {
    PartsOfConcat(d, l, w[k], a, b);
    pre, kk, post := [], k, [];
    if l == 0 {
      TearLeaf(d, w, k, a, b, r, w[k := LeftPart(w[k], i)][r := RightPart(w[k], i)], pre, kk, post);
    } else {
      var cs := w[k].children;
      TearIndex(d, w, k, l, a, b);
      pre, kk, post := cs[..i], cs[i], cs[i + 1..];
      assert cs == pre + [kk] + post && cs[..i + 1] == pre + [kk] && cs[i..] == [kk] + post;
      TearInternal(d, w, k, l, a, b, r, pre, kk, post, w[k := LeftPart(w[k], i)][r := RightPart(w[k], i)]);
    }
  }

  lemma TearIndex(d: Draws, w: Blobs, k: Ident, l: nat, a: seq<Item>, b: seq<Item>)
    requires l > 0 && Rep(d, w, k, l, a + b)
    ensures |Seps(d, l, a)| < |w[k].children|
  {
    SepsConcat(d, l, a, b);
    RepAllLength(d, w, w[k].children, l - 1, Segs(d, l, a + b));
  }

  /** The store after the child k has moved to `kNew` and been split at i, its right half going to
      `rNew`; wb is the store without k in which the nodes above already name the new idents. */
  function Split(w: Blobs, wb: Blobs, k: Ident, kNew: Ident, rNew: Ident, i: nat): Blobs
    requires k in w && !w[k].Blank? && i <= |w[k].lhashes| && i <= |w[k].values|
             && (w[k].Internal? ==> i < |w[k].children|)
  {
    wb[kNew := LeftPart(w[k], i)][rNew := RightPart(w[k], i)]
  }

  /** Once the torn child's halves are complete, so are c and r. */
  lemma Mend(d: Draws, w: Blobs, c: Ident, r: Ident, l: nat, a: seq<Item>, b: seq<Item>,
             pre: seq<Ident>, k: Ident, post: seq<Ident>, w1: Blobs, kNew: Ident, rNew: Ident)
    requires l > 0 && Torn(d, w, c, r, l, a, b, pre, k, post)
    requires Rep(d, w1, kNew, l - 1, LastSeg(d, l, a)) && Rep(d, w1, rNew, l - 1, FirstSeg(d, l, b))
    requires Own(w1, kNew, l - 1) !! Own(w1, rNew, l - 1)
    requires c in w1 && w1[c] == w[c].(children := pre + [kNew])
    requires r in w1 && w1[r] == w[r].(children := [rNew] + post)
    requires c !in Own(w1, kNew, l - 1) + Own(w1, rNew, l - 1)
    requires r !in Own(w1, kNew, l - 1) + Own(w1, rNew, l - 1)
    requires Swap(w, Own(w, k, l - 1) + {c, r}, w1, Own(w1, kNew, l - 1) + Own(w1, rNew, l - 1) + {c, r})
    ensures FitsTwo(d, w, TornOwn(w, c, r, l, pre, k, post), w1, c, r, l, a, b)
  {
    hide RepAll, OwnAll, Rep, Own, Segs, Seps;
    TornInStore(d, w, c, r, l, a, b, pre, k, post);
    SidesKept(d, w, w1, c, pre, Front(d, l, a), post, Segs(d, l, b)[1..], l - 1);
    MendBoth(d, w1, c, r, l, a, b, pre, post, kNew, rNew);
    SwapWiden(w, Own(w, k, l - 1) + {c, r}, w1, Own(w1, kNew, l - 1) + Own(w1, rNew, l - 1) + {c, r},
              Flank(w, pre, post, l - 1));
    assert Own(w, k, l - 1) + {c, r} + Flank(w, pre, post, l - 1) == TornOwn(w, c, r, l, pre, k, post);
  }

  lemma TornInStore(d: Draws, w: Blobs, c: Ident, r: Ident, l: nat, a: seq<Item>, b: seq<Item>,
                    pre: seq<Ident>, k: Ident, post: seq<Ident>)
    requires l > 0 && Torn(d, w, c, r, l, a, b, pre, k, post)
    ensures Flank(w, pre, post, l - 1) <= w.Keys && Own(w, k, l - 1) <= w.Keys
    ensures k in Own(w, k, l - 1)
  {
    SidesKept(d, w, w, c, pre, Front(d, l, a), post, Segs(d, l, b)[1..], l - 1);
    RepFrame(d, w, w, k, l - 1, LastSeg(d, l, a) + FirstSeg(d, l, b));
  }

  /** What neither store touches may be counted on both sides. */
  lemma SwapWiden(w: Blobs, gone: set<Ident>, w1: Blobs, come: set<Ident>, more: set<Ident>)
    requires Swap(w, gone, w1, come)
    requires more <= w.Keys && more !! gone
    ensures Swap(w, gone + more, w1, come + more)
    ensures more !! come
  {
    assert more <= w.Keys - gone;
  }

  lemma MendBoth(d: Draws, w: Blobs, c: Ident, r: Ident, l: nat, a: seq<Item>, b: seq<Item>,
                 pre: seq<Ident>, post: seq<Ident>, kNew: Ident, rNew: Ident)
    requires l > 0 && c in w && r in w && c != r
    requires w[c] == Internal(Hashes(Seps(d, l, a)), Values(Seps(d, l, a)), pre + [kNew])
    requires w[r] == Internal(Hashes(Seps(d, l, b)), Values(Seps(d, l, b)), [rNew] + post)
    requires Sides(d, w, c, pre, Front(d, l, a), post, Segs(d, l, b)[1..], l - 1)
    requires Rep(d, w, kNew, l - 1, LastSeg(d, l, a)) && Rep(d, w, rNew, l - 1, FirstSeg(d, l, b))
    requires Own(w, kNew, l - 1) !! Own(w, rNew, l - 1)
    requires Flank(w, pre, post, l - 1) !! Own(w, kNew, l - 1) + Own(w, rNew, l - 1)
    requires c !in Own(w, kNew, l - 1) + Own(w, rNew, l - 1)
    requires r !in Own(w, kNew, l - 1) + Own(w, rNew, l - 1) + Flank(w, pre, post, l - 1)
    ensures Rep(d, w, c, l, a) && Rep(d, w, r, l, b)
    ensures Own(w, c, l) !! Own(w, r, l)
    ensures Own(w, c, l) + Own(w, r, l) ==
            Own(w, kNew, l - 1) + Own(w, rNew, l - 1) + {c, r} + Flank(w, pre, post, l - 1)
  {
    MendLeft(d, w, c, l, a, pre, kNew);
    MendRight(d, w, r, l, b, rNew, post);
  }

  lemma MendLeft(d: Draws, w: Blobs, c: Ident, l: nat, s: seq<Item>, pre: seq<Ident>, k: Ident)
    requires l > 0 && c in w
    requires w[c] == Internal(Hashes(Seps(d, l, s)), Values(Seps(d, l, s)), pre + [k])
    requires |pre| == |Seps(d, l, s)| && RepAll(d, w, pre, l - 1, Front(d, l, s))
             && Rep(d, w, k, l - 1, LastSeg(d, l, s))
    requires c !in OwnAll(w, pre, l - 1) + Own(w, k, l - 1)
    requires OwnAll(w, pre, l - 1) !! Own(w, k, l - 1)
    ensures Rep(d, w, c, l, s)
    ensures Own(w, c, l) == {c} + OwnAll(w, pre, l - 1) + Own(w, k, l - 1)
  {
    FrontLast(d, l, s);
    RepAllSnoc(d, w, pre, k, l - 1, Front(d, l, s), LastSeg(d, l, s));
  }

  lemma MendRight(d: Draws, w: Blobs, c: Ident, l: nat, s: seq<Item>, k: Ident, post: seq<Ident>)
    requires l > 0 && c in w
    requires w[c] == Internal(Hashes(Seps(d, l, s)), Values(Seps(d, l, s)), [k] + post)
    requires RepAll(d, w, post, l - 1, Segs(d, l, s)[1..]) && Rep(d, w, k, l - 1, FirstSeg(d, l, s))
    requires c !in OwnAll(w, post, l - 1) + Own(w, k, l - 1)
    requires OwnAll(w, post, l - 1) !! Own(w, k, l - 1)
    ensures Rep(d, w, c, l, s)
    ensures Own(w, c, l) == {c} + OwnAll(w, post, l - 1) + Own(w, k, l - 1)
  {
    assert ([k] + post)[1..] == post;
  }

  lemma SplitTears(d: Draws, w: Blobs, wb: Blobs, l: nat, a: seq<Item>, b: seq<Item>, k: Ident, kNew: Ident,
                   rNew: Ident, i: nat)
    returns (pre': seq<Ident>, k': Ident, post': seq<Ident>)
    requires Rep(d, w, k, l, a + b) && Agree(w, wb, Own(w, k, l) - {k})
    requires kNew !in w && rNew !in w && rNew !in wb && kNew != rNew
    requires i == |Seps(d, l, a)|
    ensures i <= |w[k].lhashes| && i <= |w[k].values| && (w[k].Internal? ==> i < |w[k].children|)
    ensures var w' := Split(w, wb, k, kNew, rNew, i);
      && Torn(d, w', kNew, rNew, l, a, b, pre', k', post')
      && TornOwn(w', kNew, rNew, l, pre', k', post') == Own(w, k, l) - {k} + {kNew, rNew}
  {
    hide Own, Torn, TornOwn, Seps, Segs;
    var s := a + b;
    var w0 := wb[kNew := w[k]];
    RepFrame(d, w, w, k, l, s);
    RepMoved(d, w, w0, k, kNew, l, s);
    pre', k', post' := Tear(d, w0, kNew, l, a, b, rNew, i);
    assert Split(w, wb, k, kNew, rNew, i) == w0[kNew := LeftPart(w0[kNew], i)][rNew := RightPart(w0[kNew], i)];
  }

  /** The two halves c and r with their common child replaced by a child each. */
  function Parted(w: Blobs, c: Ident, r: Ident, pre: seq<Ident>, k: Ident, post: seq<Ident>, kNew: Ident,
                  rNew: Ident): Blobs
    requires c in w && w[c].Internal? && r in w && w[r].Internal?
  {
    (w - {k})[c := w[c].(children := pre + [kNew])][r := w[r].(children := [rNew] + post)]
  }

  lemma SplitMends(d: Draws, w: Blobs, c: Ident, r: Ident, l: nat, a: seq<Item>, b: seq<Item>,
                   pre: seq<Ident>, k: Ident, post: seq<Ident>, kNew: Ident, rNew: Ident, i: nat, w1: Blobs)
    requires l > 0 && Torn(d, w, c, r, l, a, b, pre, k, post)
    requires kNew !in w && rNew !in w && kNew != rNew
    requires i <= |w[k].lhashes| && i <= |w[k].values| && (w[k].Internal? ==> i < |w[k].children|)
    requires FitsTwo(d, Split(w, Parted(w, c, r, pre, k, post, kNew, rNew), k, kNew, rNew, i),
                     Own(w, k, l - 1) - {k} + {kNew, rNew}, w1,
                     kNew, rNew, l - 1, LastSeg(d, l, a), FirstSeg(d, l, b))
    ensures FitsTwo(d, w, TornOwn(w, c, r, l, pre, k, post), w1, c, r, l, a, b)
  {
    TornInStore(d, w, c, r, l, a, b, pre, k, post);
    SplitSwap(w, Split(w, Parted(w, c, r, pre, k, post, kNew, rNew), k, kNew, rNew, i), c, r, k, kNew, rNew,
              Own(w, k, l - 1), w1, Own(w1, kNew, l - 1) + Own(w1, rNew, l - 1));
    Mend(d, w, c, r, l, a, b, pre, k, post, w1, kNew, rNew);
  }

  /** One step of the split: tearing the child of two torn halves leaves only the child's halves to
      be completed. */
  lemma SplitStep(d: Draws, w: Blobs, c: Ident, r: Ident, l: nat, a: seq<Item>, b: seq<Item>,
                  pre: seq<Ident>, k: Ident, post: seq<Ident>, kNew: Ident, rNew: Ident, i: nat)
    returns (pre': seq<Ident>, k': Ident, post': seq<Ident>)
    requires l > 0 && Torn(d, w, c, r, l, a, b, pre, k, post)
    requires kNew !in w && rNew !in w && kNew != rNew
    requires i == |Seps(d, l - 1, LastSeg(d, l, a))|
    ensures i <= |w[k].lhashes| && i <= |w[k].values| && (w[k].Internal? ==> i < |w[k].children|)
    ensures var w' := Split(w, Parted(w, c, r, pre, k, post, kNew, rNew), k, kNew, rNew, i);
      && Torn(d, w', kNew, rNew, l - 1, LastSeg(d, l, a), FirstSeg(d, l, b), pre', k', post')
      && TornOwn(w', kNew, rNew, l - 1, pre', k', post') <= TornOwn(w, c, r, l, pre, k, post) - {c, r} + {kNew, rNew}
      && forall w1 :: FitsTwo(d, w', TornOwn(w', kNew, rNew, l - 1, pre', k', post'), w1, kNew, rNew, l - 1,
                              LastSeg(d, l, a), FirstSeg(d, l, b))
                      ==> FitsTwo(d, w, TornOwn(w, c, r, l, pre, k, post), w1, c, r, l, a, b)
  {
    TornInStore(d, w, c, r, l, a, b, pre, k, post);
    pre', k', post' := SplitTears(d, w, Parted(w, c, r, pre, k, post, kNew, rNew), l - 1, LastSeg(d, l, a),
                                  FirstSeg(d, l, b), k, kNew, rNew, i);
    var w' := Split(w, Parted(w, c, r, pre, k, post, kNew, rNew), k, kNew, rNew, i);
    forall w1 | FitsTwo(d, w', TornOwn(w', kNew, rNew, l - 1, pre', k', post'), w1, kNew, rNew, l - 1,
                        LastSeg(d, l, a), FirstSeg(d, l, b))
      ensures FitsTwo(d, w, TornOwn(w, c, r, l, pre, k, post), w1, c, r, l, a, b)
    {
      SplitMends(d, w, c, r, l, a, b, pre, k, post, kNew, rNew, i, w1);
    }
  }

  lemma SplitSwap(w: Blobs, w': Blobs, c: Ident, r: Ident, k: Ident, kNew: Ident, rNew: Ident, own: set<Ident>,
                  w1: Blobs, come: set<Ident>)
    requires c in w && r in w && k in own && own <= w.Keys && c !in own && r !in own
    requires kNew !in w && rNew !in w
    requires Swap(w, {c, r, k}, w', {c, r, kNew, rNew})
    requires Swap(w', own - {k} + {kNew, rNew}, w1, come)
    ensures c in w1 && r in w1 && w1[c] == w'[c] && w1[r] == w'[r] && c !in come && r !in come
    ensures Swap(w, own + {c, r}, w1, come + {c, r})
  {
    assert c in w'.Keys - (own - {k} + {kNew, rNew});
    assert r in w'.Keys - (own - {k} + {kNew, rNew});
  }

  // ---------------------------------------------------------------- inserting

  /** The node with one more item at index i. */
  function WithItem(n: Node, i: nat, x: Item): Node
    requires !n.Blank? && i <= |n.lhashes| && i <= |n.values|
  {
    n.(lhashes := n.lhashes[..i] + [x.hash] + n.lhashes[i..], values := n.values[..i] + [x.value] + n.values[i..])
  }

  lemma InsertItem(d: Draws, l: nat, n: Node, a: seq<Item>, x: Item, b: seq<Item>)
    requires !n.Blank? && n.lhashes == Hashes(Seps(d, l, a + b)) && n.values == Values(Seps(d, l, a + b))
    requires Tall(d, x.hash, l)
    ensures var i := |Seps(d, l, a)|;
      && i <= |n.lhashes| == |n.values|
      && WithItem(n, i, x).lhashes == Hashes(Seps(d, l, a + [x] + b))
      && WithItem(n, i, x).values == Values(Seps(d, l, a + [x] + b))
  {
    SepsConcat(d, l, a, b);
    SegsAround(d, l, a, x, b);
    HashesInsert(Seps(d, l, a), x, Seps(d, l, b));
  }

  lemma HashesInsert(p: seq<Item>, x: Item, q: seq<Item>)
    ensures Hashes(p + q)[..|p|] + [x.hash] + Hashes(p + q)[|p|..] == Hashes(p + [x] + q)
    ensures Values(p + q)[..|p|] + [x.value] + Values(p + q)[|p|..] == Values(p + [x] + q)
  {
  }

  /** An item inserted in a leaf completes it. */
  lemma InsertAtLeaf(d: Draws, w: Blobs, c: Ident, a: seq<Item>, x: Item, b: seq<Item>)
    requires Rep(d, w, c, 0, a + b)
    ensures |Seps(d, 0, a)| <= |w[c].lhashes| == |w[c].values|
    ensures Fits(d, w, Own(w, c, 0), w[c := WithItem(w[c], |Seps(d, 0, a)|, x)], c, 0, a + [x] + b)
  {
    InsertItem(d, 0, w[c], a, x, b);
  }

  /** The node c with the item x at index i and the child there replaced by two. */
  function Wedged(w: Blobs, c: Ident, i: nat, x: Item, kNew: Ident, rNew: Ident): Blobs
    requires c in w && w[c].Internal? && i <= |w[c].lhashes| && i <= |w[c].values| && i < |w[c].children|
  {
    var cs := w[c].children;
    (w - {cs[i]})[c := WithItem(w[c], i, x).(children := cs[..i] + [kNew, rNew] + cs[i + 1..])]
  }

  lemma WedgeMends(d: Draws, w: Blobs, c: Ident, l: nat, a: seq<Item>, x: Item, b: seq<Item>,
                   pre: seq<Ident>, k: Ident, post: seq<Ident>, w1: Blobs, kNew: Ident, rNew: Ident)
    requires l > 0 && Rep(d, w, c, l, a + b) && Tall(d, x.hash, l)
    requires w[c].children == pre + [k] + post && |pre| == |Seps(d, l, a)|
    requires c in w1
    requires w1[c] == Internal(Hashes(Seps(d, l, a + [x] + b)), Values(Seps(d, l, a + [x] + b)),
                               pre + [kNew, rNew] + post)
    requires Rep(d, w1, kNew, l - 1, LastSeg(d, l, a)) && Rep(d, w1, rNew, l - 1, FirstSeg(d, l, b))
    requires Own(w1, kNew, l - 1) !! Own(w1, rNew, l - 1)
    requires c !in Own(w1, kNew, l - 1) + Own(w1, rNew, l - 1)
    requires Swap(w, Own(w, k, l - 1) + {c}, w1, Own(w1, kNew, l - 1) + Own(w1, rNew, l - 1) + {c})
    ensures Fits(d, w, Own(w, c, l), w1, c, l, a + [x] + b)
  {
    AroundMeet(d, w, c, l, a, b, pre, k, post);
    WedgeSegs(d, l, a, x, b);
    Regrow(d, w, c, l, pre, k, post, Front(d, l, a), Segs(d, l, b)[1..],
           w1, kNew, rNew, LastSeg(d, l, a), FirstSeg(d, l, b), a + [x] + b);
  }

  lemma Regrow(d: Draws, w: Blobs, c: Ident, l: nat, pre: seq<Ident>, k: Ident, post: seq<Ident>,
               sPre: seq<seq<Item>>, sPost: seq<seq<Item>>,
               w1: Blobs, kNew: Ident, rNew: Ident, sa: seq<Item>, sb: seq<Item>, s: seq<Item>)
    requires l > 0 && Sides(d, w, c, pre, sPre, post, sPost, l - 1)
    requires Flank(w, pre, post, l - 1) !! Own(w, k, l - 1)
    requires Own(w, c, l) == {c} + Flank(w, pre, post, l - 1) + Own(w, k, l - 1) <= w.Keys
    requires c in w1 && w1[c] == Internal(Hashes(Seps(d, l, s)), Values(Seps(d, l, s)), pre + [kNew, rNew] + post)
    requires Segs(d, l, s) == sPre + [sa, sb] + sPost
    requires Rep(d, w1, kNew, l - 1, sa) && Rep(d, w1, rNew, l - 1, sb)
    requires Own(w1, kNew, l - 1) !! Own(w1, rNew, l - 1)
    requires c !in Own(w1, kNew, l - 1) + Own(w1, rNew, l - 1)
    requires Swap(w, Own(w, k, l - 1) + {c}, w1, Own(w1, kNew, l - 1) + Own(w1, rNew, l - 1) + {c})
    ensures Fits(d, w, Own(w, c, l), w1, c, l, s)
  {
    hide RepAll, OwnAll, Segs, Seps;
    SidesKept(d, w, w1, c, pre, sPre, post, sPost, l - 1);
    RepAllPair(d, w1, kNew, rNew, l - 1, sa, sb);
    SwapWiden(w, Own(w, k, l - 1) + {c}, w1, Own(w1, kNew, l - 1) + Own(w1, rNew, l - 1) + {c},
              Flank(w, pre, post, l - 1));
    Assemble(d, w1, c, l, s, pre, [kNew, rNew], post, sPre, [sa, sb], sPost);
    assert Own(w1, c, l) == Own(w1, kNew, l - 1) + Own(w1, rNew, l - 1) + {c} + Flank(w, pre, post, l - 1);
    assert Own(w, c, l) == Own(w, k, l - 1) + {c} + Flank(w, pre, post, l - 1);
  }

  lemma WedgeSegs(d: Draws, l: nat, a: seq<Item>, x: Item, b: seq<Item>)
    requires Tall(d, x.hash, l)
    ensures Segs(d, l, a + [x] + b) == Front(d, l, a) + [LastSeg(d, l, a), FirstSeg(d, l, b)] + Segs(d, l, b)[1..]
  {
    hide Tall, Seps, Segs;
    SegsAround(d, l, a, x, b);
    FrontLast(d, l, a);
    var sb := Segs(d, l, b);
    assert sb == [sb[0]] + sb[1..];
  }

  lemma RepAllPair(d: Draws, w: Blobs, k: Ident, r: Ident, l: nat, sk: seq<Item>, sr: seq<Item>)
    requires Rep(d, w, k, l, sk) && Rep(d, w, r, l, sr) && Own(w, k, l) !! Own(w, r, l)
    ensures RepAll(d, w, [k, r], l, [sk, sr])
    ensures OwnAll(w, [k, r], l) == Own(w, k, l) + Own(w, r, l)
  {
    RepAllOne(d, w, k, l, sk);
    RepAllSnoc(d, w, [k], r, l, [sk], sr);
    assert [k] + [r] == [k, r] && [sk] + [sr] == [sk, sr];
  }

  /** An item inserted above the leaves splits the child it lands on; once the halves are complete,
      so is the node. */
  lemma InsertStep(d: Draws, w: Blobs, c: Ident, l: nat, a: seq<Item>, x: Item, b: seq<Item>, kNew: Ident,
                   rNew: Ident, j: nat, i: nat)
    returns (pre': seq<Ident>, k': Ident, post': seq<Ident>)
    requires l > 0 && Rep(d, w, c, l, a + b) && Tall(d, x.hash, l)
    requires kNew !in w && rNew !in w && kNew != rNew
    requires j == |Seps(d, l, a)| && i == |Seps(d, l - 1, LastSeg(d, l, a))|
    ensures j <= |w[c].lhashes| && j <= |w[c].values| && j < |w[c].children|
    ensures var k := w[c].children[j];
      && k in w && k != c
      && !w[k].Blank? && i <= |w[k].lhashes| && i <= |w[k].values| && (w[k].Internal? ==> i < |w[k].children|)
      && var w' := Split(w, Wedged(w, c, j, x, kNew, rNew), k, kNew, rNew, i);
      && Torn(d, w', kNew, rNew, l - 1, LastSeg(d, l, a), FirstSeg(d, l, b), pre', k', post')
      && TornOwn(w', kNew, rNew, l - 1, pre', k', post') <= Own(w, c, l) - {c} + {kNew, rNew}
      && forall w1 :: FitsTwo(d, w', TornOwn(w', kNew, rNew, l - 1, pre', k', post'), w1, kNew, rNew, l - 1,
                              LastSeg(d, l, a), FirstSeg(d, l, b))
                      ==> Fits(d, w, Own(w, c, l), w1, c, l, a + [x] + b)
  {
    hide RepAll, OwnAll, Torn, TornOwn, FitsTwo, Fits, Seps, Segs, Tall;
    TearIndex(d, w, c, l, a, b);
    InsertItem(d, l, w[c], a, x, b);
    var cs := w[c].children;
    Divide(cs, j);
    var pre, k, post := cs[..j], cs[j], cs[j + 1..];
    AroundMeet(d, w, c, l, a, b, pre, k, post);
    pre', k', post' := SplitTears(d, w, Wedged(w, c, j, x, kNew, rNew), l - 1, LastSeg(d, l, a), FirstSeg(d, l, b), k,
                                  kNew, rNew, i);
    var w' := Split(w, Wedged(w, c, j, x, kNew, rNew), k, kNew, rNew, i);
    forall w1 | FitsTwo(d, w', TornOwn(w', kNew, rNew, l - 1, pre', k', post'), w1, kNew, rNew, l - 1,
                        LastSeg(d, l, a), FirstSeg(d, l, b))
      ensures Fits(d, w, Own(w, c, l), w1, c, l, a + [x] + b)
    {
      InsertMends(d, w, w', c, l, a, x, b, pre, k, post, kNew, rNew, w1);
    }
  }

  lemma InsertMends(d: Draws, w: Blobs, w': Blobs, c: Ident, l: nat, a: seq<Item>, x: Item, b: seq<Item>,
                    pre: seq<Ident>, k: Ident, post: seq<Ident>, kNew: Ident, rNew: Ident, w1: Blobs)
    requires l > 0 && Rep(d, w, c, l, a + b) && Tall(d, x.hash, l)
    requires kNew !in w && rNew !in w && kNew != rNew
    requires w[c].children == pre + [k] + post && |pre| == |Seps(d, l, a)|
    requires k in w && c in w' && Swap(w, {c, k}, w', {c, kNew, rNew})
    requires w'[c] == Internal(Hashes(Seps(d, l, a + [x] + b)), Values(Seps(d, l, a + [x] + b)),
                               pre + [kNew, rNew] + post)
    requires FitsTwo(d, w', Own(w, k, l - 1) - {k} + {kNew, rNew}, w1, kNew, rNew, l - 1, LastSeg(d, l, a),
                     FirstSeg(d, l, b))
    ensures Fits(d, w, Own(w, c, l), w1, c, l, a + [x] + b)
  {
    AroundMeet(d, w, c, l, a, b, pre, k, post);
    InsertSwap(w, w', c, k, kNew, rNew, Own(w, k, l - 1), w1, Own(w1, kNew, l - 1) + Own(w1, rNew, l - 1));
    WedgeMends(d, w, c, l, a, x, b, pre, k, post, w1, kNew, rNew);
  }

  lemma InsertSwap(w: Blobs, w': Blobs, c: Ident, k: Ident, kNew: Ident, rNew: Ident, own: set<Ident>, w1: Blobs,
                   come: set<Ident>)
    requires c in w && k in own && own <= w.Keys && c !in own
    requires kNew !in w && rNew !in w
    requires Swap(w, {c, k}, w', {c, kNew, rNew})
    requires Swap(w', own - {k} + {kNew, rNew}, w1, come)
    ensures c in w1 && w1[c] == w'[c] && c !in come
    ensures Swap(w, own + {c}, w1, come + {c})
  {
    assert c in w'.Keys - (own - {k} + {kNew, rNew});
  }

  /** A new value for an item, in the node that holds it. */
  lemma ReplaceFits(d: Draws, w: Blobs, c: Ident, l: nat, a: seq<Item>, x: Item, b: seq<Item>, y: Item, i: nat)
    requires Rep(d, w, c, l, a + [x] + b) && Tall(d, x.hash, l) && y.hash == x.hash && i == |Seps(d, l, a)|
    ensures i < |w[c].values|
    ensures Fits(d, w, Own(w, c, l), w[c := w[c].(values := w[c].values[i := y.value])], c, l, a + [y] + b)
  {
    hide Glue, Seps, Segs, Tall, RepAll, OwnAll;
    SegsAround(d, l, a, x, b);
    SegsAround(d, l, a, y, b);
    HashesReplace(Seps(d, l, a), x, y, Seps(d, l, b));
    var w1 := w[c := w[c].(values := w[c].values[i := y.value])];
    RepFrame(d, w, w, c, l, a + [x] + b);
    if l > 0 {
      RepAllFrame(d, w, w1, w[c].children, l - 1, Segs(d, l, a + [x] + b));
    }
  }

  lemma HashesReplace(p: seq<Item>, x: Item, y: Item, q: seq<Item>)
    requires x.hash == y.hash
    ensures Hashes(p + [y] + q) == Hashes(p + [x] + q)
    ensures Values(p + [y] + q) == Values(p + [x] + q)[|p| := y.value]
  {
  }
}

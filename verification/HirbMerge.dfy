/** Merging the nodes on the path below a deleted item. */
module HirbMerge {
  import opened HirbShape
  import opened BlobMap
  import opened HirbStore
  import opened HirbSplit

  /** A node that has taken in its right sibling, whose first child is left over. */
  function Merged(n: Node, sib: Node): Node
    requires !n.Blank? && !sib.Blank? && (n.Leaf? <==> sib.Leaf?) && (sib.Internal? ==> sib.children != [])
  {
    if n.Leaf? then Leaf(n.lhashes + sib.lhashes, n.values + sib.values)
    else Internal(n.lhashes + sib.lhashes, n.values + sib.values, n.children + sib.children[1..])
  }

  /** The node c holds the separators of a and of b, but its child k has only the last segment of
      a, and the first segment of b is still at q, which no node names. */
  ghost predicate Unmerged(d: Draws, w: Blobs, c: Ident, l: nat, a: seq<Item>, b: seq<Item>,
                           pre: seq<Ident>, k: Ident, post: seq<Ident>, q: Ident)
  {
    && c in w
    && if l == 0 then w[c] == Leaf(Hashes(a + b), Values(a + b))
       else
         && w[c] == Internal(Hashes(Seps(d, l, a + b)), Values(Seps(d, l, a + b)), pre + [k] + post)
         && Sides(d, w, c, pre, Front(d, l, a), post, Segs(d, l, b)[1..], l - 1)
         && Rep(d, w, k, l - 1, LastSeg(d, l, a))
         && Rep(d, w, q, l - 1, FirstSeg(d, l, b))
         && Own(w, k, l - 1) !! Own(w, q, l - 1)
         && Flank(w, pre, post, l - 1) !! Own(w, k, l - 1) + Own(w, q, l - 1)
         && c !in Own(w, k, l - 1) + Own(w, q, l - 1)
  }

  ghost function UnmergedOwn(w: Blobs, c: Ident, l: nat, pre: seq<Ident>, k: Ident, post: seq<Ident>,
                             q: Ident): set<Ident> {
    if l == 0 then {c} else {c} + Flank(w, pre, post, l - 1) + Own(w, k, l - 1) + Own(w, q, l - 1)
  }

  /** The node without its item at index i. */
  function WithoutItem(n: Node, i: nat): Node
    requires !n.Blank? && i < |n.lhashes| && i < |n.values|
  {
    n.(lhashes := n.lhashes[..i] + n.lhashes[i + 1..], values := n.values[..i] + n.values[i + 1..])
  }

  lemma DeleteItem(d: Draws, l: nat, n: Node, a: seq<Item>, x: Item, b: seq<Item>)
    requires !n.Blank? && n.lhashes == Hashes(Seps(d, l, a + [x] + b)) && n.values == Values(Seps(d, l, a + [x] + b))
    requires Tall(d, x.hash, l)
    ensures var i := |Seps(d, l, a)|;
      && i < |n.lhashes| == |n.values|
      && WithoutItem(n, i).lhashes == Hashes(Seps(d, l, a + b))
      && WithoutItem(n, i).values == Values(Seps(d, l, a + b))
  {
    SegsAround(d, l, a, x, b);
    SepsConcat(d, l, a, b);
    HashesDelete(Seps(d, l, a), x, Seps(d, l, b));
  }

  lemma HashesDelete(p: seq<Item>, x: Item, q: seq<Item>)
    ensures Hashes(p + [x] + q)[..|p|] + Hashes(p + [x] + q)[|p| + 1..] == Hashes(p + q)
    ensures Values(p + [x] + q)[..|p|] + Values(p + [x] + q)[|p| + 1..] == Values(p + q)
  {
  }

  lemma DeleteAtLeaf(d: Draws, w: Blobs, c: Ident, a: seq<Item>, x: Item, b: seq<Item>)
    requires Rep(d, w, c, 0, a + [x] + b)
    ensures |Seps(d, 0, a)| < |w[c].lhashes| == |w[c].values|
    ensures Fits(d, w, Own(w, c, 0), w[c := WithoutItem(w[c], |Seps(d, 0, a)|)], c, 0, a + b)
  {
    DeleteItem(d, 0, w[c], a, x, b);
  }

  /** Taking an item out of an internal node leaves two of its children to be merged. */
  lemma DeleteUnmerges(d: Draws, w: Blobs, c: Ident, l: nat, a: seq<Item>, x: Item, b: seq<Item>, j: nat)
    requires l > 0 && Rep(d, w, c, l, a + [x] + b) && Tall(d, x.hash, l) && j == |Seps(d, l, a)|
    ensures c in w && w[c].Internal? && j < |w[c].lhashes| && j < |w[c].values| && j + 1 < |w[c].children|
    ensures var cs := w[c].children;
      var w' := w[c := WithoutItem(w[c], j).(children := cs[..j + 1] + cs[j + 2..])];
      && Unmerged(d, w', c, l, a, b, cs[..j], cs[j], cs[j + 2..], cs[j + 1])
      && UnmergedOwn(w', c, l, cs[..j], cs[j], cs[j + 2..], cs[j + 1]) == Own(w, c, l)
  {
    hide RepAll, OwnAll, Seps, Segs, Tall;
    DeleteItem(d, l, w[c], a, x, b);
    WedgeSegs(d, l, a, x, b);
    var cs := w[c].children;
    RepAllLength(d, w, cs, l - 1, Segs(d, l, a + [x] + b));
    var pre, k, q, post := cs[..j], cs[j], cs[j + 1], cs[j + 2..];
    assert cs == pre + [k, q] + post && cs[..j + 1] == pre + [k];
    AroundPair(d, w, c, l, a + [x] + b, pre, k, q, post, Front(d, l, a), LastSeg(d, l, a), FirstSeg(d, l, b),
               Segs(d, l, b)[1..]);
    PairKept(d, w, w[c := WithoutItem(w[c], j).(children := cs[..j + 1] + cs[j + 2..])], c, l - 1, pre, k, q, post,
             Front(d, l, a), LastSeg(d, l, a), FirstSeg(d, l, b), Segs(d, l, b)[1..]);
  }

  lemma PairKept(d: Draws, w: Blobs, w': Blobs, c: Ident, l: nat, pre: seq<Ident>, k: Ident, q: Ident, post: seq<Ident>,
                 sPre: seq<seq<Item>>, sk: seq<Item>, sq: seq<Item>, sPost: seq<seq<Item>>)
    requires Sides(d, w, c, pre, sPre, post, sPost, l) && Rep(d, w, k, l, sk) && Rep(d, w, q, l, sq)
    requires c !in Own(w, k, l) + Own(w, q, l)
    requires Agree(w, w', w.Keys - {c})
    ensures Sides(d, w', c, pre, sPre, post, sPost, l) && Rep(d, w', k, l, sk) && Rep(d, w', q, l, sq)
    ensures Flank(w', pre, post, l) == Flank(w, pre, post, l) && Own(w', k, l) == Own(w, k, l)
            && Own(w', q, l) == Own(w, q, l)
  {
    SidesKept(d, w, w', c, pre, sPre, post, sPost, l);
    RepFrame(d, w, w', k, l, sk);
    RepFrame(d, w, w', q, l, sq);
  }

  /** The children of a node around two of them. */
  lemma AroundPair(d: Draws, w: Blobs, c: Ident, l: nat, s: seq<Item>, pre: seq<Ident>, k: Ident, q: Ident,
                   post: seq<Ident>, sPre: seq<seq<Item>>, sk: seq<Item>, sq: seq<Item>, sPost: seq<seq<Item>>)
    requires l > 0 && Rep(d, w, c, l, s)
    requires w[c].children == pre + [k, q] + post
    requires Segs(d, l, s) == sPre + [sk, sq] + sPost && |pre| == |sPre|
    ensures Sides(d, w, c, pre, sPre, post, sPost, l - 1) && Rep(d, w, k, l - 1, sk) && Rep(d, w, q, l - 1, sq)
    ensures Own(w, k, l - 1) !! Own(w, q, l - 1)
    ensures Flank(w, pre, post, l - 1) !! Own(w, k, l - 1) + Own(w, q, l - 1)
    ensures Own(w, c, l) == {c} + Flank(w, pre, post, l - 1) + Own(w, k, l - 1) + Own(w, q, l - 1) <= w.Keys
    ensures c !in Own(w, k, l - 1) + Own(w, q, l - 1)
  {
    assert pre + [k, q] + post == pre + [k] + ([q] + post);
    assert sPre + [sk, sq] + sPost == sPre + [sk] + ([sq] + sPost);
    Around(d, w, c, l, s, pre, k, [q] + post, sPre, sk, [sq] + sPost);
    assert ([q] + post)[1..] == post;
    OwnAllConcat(w, [q], post, l - 1);
    RepAllConcat(d, w, [q], post, l - 1, [sq], sPost);
    RepAllOne(d, w, q, l - 1, sq);
  }

  /** What a node's subtree is made of, seen from its last child. */
  lemma AtLast(d: Draws, w: Blobs, k: Ident, l: nat, a: seq<Item>, pre: seq<Ident>, kk: Ident)
    requires l > 0 && Rep(d, w, k, l, a) && w[k].children == pre + [kk]
    ensures |pre| == |Seps(d, l, a)|
    ensures RepAll(d, w, pre, l - 1, Front(d, l, a)) && Rep(d, w, kk, l - 1, LastSeg(d, l, a))
    ensures OwnAll(w, pre, l - 1) !! Own(w, kk, l - 1)
    ensures Own(w, k, l) == {k} + OwnAll(w, pre, l - 1) + Own(w, kk, l - 1) <= w.Keys
    ensures k !in OwnAll(w, pre, l - 1) + Own(w, kk, l - 1)
  {
    RepFrame(d, w, w, k, l, a);
    RepAllLength(d, w, pre + [kk], l - 1, Segs(d, l, a));
    FrontLast(d, l, a);
    RepAllConcat(d, w, pre, [kk], l - 1, Front(d, l, a), [LastSeg(d, l, a)]);
    RepAllOne(d, w, kk, l - 1, LastSeg(d, l, a));
    OwnAllConcat(w, pre, [kk], l - 1);
  }

  /** What a node's subtree is made of, seen from its first child. */
  lemma AtFirst(d: Draws, w: Blobs, q: Ident, l: nat, b: seq<Item>, qq: Ident, post: seq<Ident>)
    requires l > 0 && Rep(d, w, q, l, b) && w[q].children == [qq] + post
    ensures RepAll(d, w, post, l - 1, Segs(d, l, b)[1..]) && Rep(d, w, qq, l - 1, FirstSeg(d, l, b))
    ensures OwnAll(w, post, l - 1) !! Own(w, qq, l - 1)
    ensures Own(w, q, l) == {q} + OwnAll(w, post, l - 1) + Own(w, qq, l - 1) <= w.Keys
    ensures q !in OwnAll(w, post, l - 1) + Own(w, qq, l - 1)
  {
    RepFrame(d, w, w, q, l, b);
    assert ([qq] + post)[1..] == post;
  }

  /** Two neighbouring subtrees, the right one's top node merged into the left one's. */
  lemma MergeMakes(d: Draws, w: Blobs, wb: Blobs, l: nat, a: seq<Item>, b: seq<Item>, k: Ident, q: Ident, kNew: Ident)
    returns (pre': seq<Ident>, k': Ident, post': seq<Ident>, q': Ident)
    requires Rep(d, w, k, l, a) && Rep(d, w, q, l, b) && Own(w, k, l) !! Own(w, q, l)
    requires Agree(w, wb, Own(w, k, l) + Own(w, q, l) - {k, q})
    requires kNew !in w
    ensures k in w && q in w && !w[k].Blank? && !w[q].Blank?
    ensures (w[k].Leaf? <==> w[q].Leaf?) && (w[q].Internal? ==> w[q].children != [])
    ensures l > 0 ==>
              && w[k].Internal? && w[q].children[0] == q'
              && |pre'| == |w[k].lhashes| && w[k].children == pre' + [k']
    ensures var w' := wb[kNew := Merged(w[k], w[q])];
      && Unmerged(d, w', kNew, l, a, b, pre', k', post', q')
      && UnmergedOwn(w', kNew, l, pre', k', post', q') == Own(w, k, l) + Own(w, q, l) - {k, q} + {kNew}
  {
    pre', k', post', q' := [], k, [], q;
    if l == 0 {
      MergeLeaves(d, w, a, b, k, q, wb[kNew := Merged(w[k], w[q])], kNew, pre', k', post', q');
    } else {
      RepAllLength(d, w, w[k].children, l - 1, Segs(d, l, a));
      RepAllLength(d, w, w[q].children, l - 1, Segs(d, l, b));
      var n := |w[k].children| - 1;
      pre', k', post', q' := w[k].children[..n], w[k].children[n], w[q].children[1..], w[q].children[0];
      assert w[k].children == pre' + [k'] && w[q].children == [q'] + post';
      MergeInternals(d, w, l, a, b, k, q, wb[kNew := Merged(w[k], w[q])], kNew, pre', k', post', q');
    }
  }

  lemma MergeLeaves(d: Draws, w: Blobs, a: seq<Item>, b: seq<Item>, k: Ident, q: Ident, w': Blobs, kNew: Ident,
                    pre': seq<Ident>, k': Ident, post': seq<Ident>, q': Ident)
    requires Rep(d, w, k, 0, a) && Rep(d, w, q, 0, b)
    requires kNew in w' && w'[kNew] == Merged(w[k], w[q])
    ensures Unmerged(d, w', kNew, 0, a, b, pre', k', post', q')
  {
    LeafSeps(d, a);
    LeafSeps(d, b);
    HashesConcat(a, b);
  }

  lemma MergeInternals(d: Draws, w: Blobs, l: nat, a: seq<Item>, b: seq<Item>, k: Ident, q: Ident, w': Blobs,
                       kNew: Ident, pre': seq<Ident>, k': Ident, post': seq<Ident>, q': Ident)
    requires l > 0 && Rep(d, w, k, l, a) && Rep(d, w, q, l, b) && Own(w, k, l) !! Own(w, q, l)
    requires Agree(w, w', Own(w, k, l) + Own(w, q, l) - {k, q})
    requires kNew !in w
    requires w[k].children == pre' + [k'] && w[q].children == [q'] + post'
    requires kNew in w'
    requires w'[kNew] == Internal(w[k].lhashes + w[q].lhashes, w[k].values + w[q].values, pre' + [k'] + post')
    ensures |pre'| == |w[k].lhashes|
    ensures Unmerged(d, w', kNew, l, a, b, pre', k', post', q')
    ensures UnmergedOwn(w', kNew, l, pre', k', post', q') == Own(w, k, l) + Own(w, q, l) - {k, q} + {kNew}
  {
    hide Seps, Segs, RepAll, OwnAll, Hashes, Values;
    AtLast(d, w, k, l, a, pre', k');
    AtFirst(d, w, q, l, b, q', post');
    MergeKeeps(d, w, w', kNew, l - 1, pre', k', post', q',
               Front(d, l, a), LastSeg(d, l, a), Segs(d, l, b)[1..], FirstSeg(d, l, b));
    HashesMeet(d, l, a, b);
  }

  lemma MergeKeeps(d: Draws, w: Blobs, w': Blobs, c: Ident, l: nat, pre: seq<Ident>, k: Ident, post: seq<Ident>,
                   q: Ident, sPre: seq<seq<Item>>, sk: seq<Item>, sPost: seq<seq<Item>>, sq: seq<Item>)
    requires RepAll(d, w, pre, l, sPre) && Rep(d, w, k, l, sk) && RepAll(d, w, post, l, sPost) && Rep(d, w, q, l, sq)
    requires |pre| == |sPre|
    requires OwnAll(w, pre, l) + Own(w, k, l) !! OwnAll(w, post, l) + Own(w, q, l)
    requires OwnAll(w, pre, l) !! Own(w, k, l) && OwnAll(w, post, l) !! Own(w, q, l)
    requires Agree(w, w', OwnAll(w, pre, l) + Own(w, k, l) + OwnAll(w, post, l) + Own(w, q, l))
    requires c !in w
    ensures Sides(d, w', c, pre, sPre, post, sPost, l) && Rep(d, w', k, l, sk) && Rep(d, w', q, l, sq)
    ensures Own(w', k, l) == Own(w, k, l) && Own(w', q, l) == Own(w, q, l)
    ensures Flank(w', pre, post, l) == OwnAll(w, pre, l) + OwnAll(w, post, l)
    ensures Own(w', k, l) !! Own(w', q, l)
    ensures Flank(w', pre, post, l) !! Own(w', k, l) + Own(w', q, l)
    ensures c !in Own(w', k, l) + Own(w', q, l)
  {
    RepAllFrame(d, w, w', pre, l, sPre);
    RepAllFrame(d, w, w', post, l, sPost);
    RepFrame(d, w, w', k, l, sk);
    RepFrame(d, w, w', q, l, sq);
  }

  /** The store after the child k of c has moved to `kNew` and taken in the node at q. */
  function Merge(w: Blobs, c: Ident, pre: seq<Ident>, k: Ident, post: seq<Ident>, q: Ident, kNew: Ident): Blobs
    requires c in w && w[c].Internal? && k in w && q in w
    requires !w[k].Blank? && !w[q].Blank? && (w[k].Leaf? <==> w[q].Leaf?) && (w[q].Internal? ==> w[q].children != [])
  {
    MergeBase(w, c, pre, k, post, q, kNew)[kNew := Merged(w[k], w[q])]
  }

  function MergeBase(w: Blobs, c: Ident, pre: seq<Ident>, k: Ident, post: seq<Ident>, q: Ident, kNew: Ident): Blobs
    requires c in w && w[c].Internal?
  {
    (w - {k, q})[c := w[c].(children := pre + [kNew] + post)]
  }

  lemma UnmergedInStore(d: Draws, w: Blobs, c: Ident, l: nat, a: seq<Item>, b: seq<Item>,
                        pre: seq<Ident>, k: Ident, post: seq<Ident>, q: Ident)
    requires l > 0 && Unmerged(d, w, c, l, a, b, pre, k, post, q)
    ensures Flank(w, pre, post, l - 1) <= w.Keys && Own(w, k, l - 1) <= w.Keys && Own(w, q, l - 1) <= w.Keys
    ensures k in Own(w, k, l - 1) && q in Own(w, q, l - 1)
  {
    SidesKept(d, w, w, c, pre, Front(d, l, a), post, Segs(d, l, b)[1..], l - 1);
    RepFrame(d, w, w, k, l - 1, LastSeg(d, l, a));
    RepFrame(d, w, w, q, l - 1, FirstSeg(d, l, b));
  }

  /** Once the merged child is complete, so is the node. */
  lemma MergeMends(d: Draws, w: Blobs, c: Ident, l: nat, a: seq<Item>, b: seq<Item>,
                   pre: seq<Ident>, k: Ident, post: seq<Ident>, q: Ident, w1: Blobs, kNew: Ident)
    requires l > 0 && Unmerged(d, w, c, l, a, b, pre, k, post, q)
    requires c in w1 && w1[c] == w[c].(children := pre + [kNew] + post)
    requires Rep(d, w1, kNew, l - 1, LastSeg(d, l, a) + FirstSeg(d, l, b)) && c !in Own(w1, kNew, l - 1)
    requires Swap(w, Own(w, k, l - 1) + Own(w, q, l - 1) + {c}, w1, Own(w1, kNew, l - 1) + {c})
    ensures Fits(d, w, UnmergedOwn(w, c, l, pre, k, post, q), w1, c, l, a + b)
  {
    UnmergedInStore(d, w, c, l, a, b, pre, k, post, q);
    SidesKept(d, w, w1, c, pre, Front(d, l, a), post, Segs(d, l, b)[1..], l - 1);
    SwapWiden(w, Own(w, k, l - 1) + Own(w, q, l - 1) + {c}, w1, Own(w1, kNew, l - 1) + {c}, Flank(w, pre, post, l - 1));
    SegsMeet(d, l, a, b);
    AssembleOne(d, w1, c, l, a + b, pre, kNew, post, Front(d, l, a), LastSeg(d, l, a) + FirstSeg(d, l, b),
                Segs(d, l, b)[1..]);
    assert Own(w1, c, l) == Own(w1, kNew, l - 1) + {c} + Flank(w, pre, post, l - 1);
    assert UnmergedOwn(w, c, l, pre, k, post, q) == Own(w, k, l - 1) + Own(w, q, l - 1) + {c}
           + Flank(w, pre, post, l - 1);
  }

  lemma MergeSwap(w: Blobs, w': Blobs, c: Ident, k: Ident, q: Ident, kNew: Ident, own: set<Ident>, w1: Blobs,
                  come: set<Ident>)
    requires c in w && k in own && q in own && own <= w.Keys && c !in own && kNew !in w
    requires Swap(w, {c, k, q}, w', {c, kNew})
    requires Swap(w', own - {k, q} + {kNew}, w1, come)
    ensures c in w1 && w1[c] == w'[c] && c !in come
    ensures Swap(w, own + {c}, w1, come + {c})
  {
    assert c in w'.Keys - (own - {k, q} + {kNew});
  }

  /** One step of the merge: merging the child of c leaves only the child to be completed. */
  lemma MergeStep(d: Draws, w: Blobs, c: Ident, l: nat, a: seq<Item>, b: seq<Item>,
                  pre: seq<Ident>, k: Ident, post: seq<Ident>, q: Ident, kNew: Ident)
    returns (pre': seq<Ident>, k': Ident, post': seq<Ident>, q': Ident)
    requires l > 0 && Unmerged(d, w, c, l, a, b, pre, k, post, q) && kNew !in w
    ensures k in w && q in w && !w[k].Blank? && !w[q].Blank?
    ensures (w[k].Leaf? <==> w[q].Leaf?) && (w[q].Internal? ==> w[q].children != [])
    ensures l > 1 ==>
              && w[k].Internal? && w[q].children[0] == q'
              && |pre'| == |w[k].lhashes| && w[k].children == pre' + [k']
    ensures var w' := Merge(w, c, pre, k, post, q, kNew);
      && Unmerged(d, w', kNew, l - 1, LastSeg(d, l, a), FirstSeg(d, l, b), pre', k', post', q')
      && UnmergedOwn(w', kNew, l - 1, pre', k', post', q') <= UnmergedOwn(w, c, l, pre, k, post, q) - {c} + {kNew}
      && forall w1 :: Fits(d, w', UnmergedOwn(w', kNew, l - 1, pre', k', post', q'), w1, kNew, l - 1,
                           LastSeg(d, l, a) + FirstSeg(d, l, b))
                      ==> Fits(d, w, UnmergedOwn(w, c, l, pre, k, post, q), w1, c, l, a + b)
  {
    hide Rep, Own, RepAll, OwnAll, Seps, Segs, Sides;
    UnmergedInStore(d, w, c, l, a, b, pre, k, post, q);
    pre', k', post', q' := MergeMakes(d, w, MergeBase(w, c, pre, k, post, q, kNew), l - 1, LastSeg(d, l, a),
                                      FirstSeg(d, l, b), k, q, kNew);
    var w' := Merge(w, c, pre, k, post, q, kNew);
    forall w1 | Fits(d, w', UnmergedOwn(w', kNew, l - 1, pre', k', post', q'), w1, kNew, l - 1,
                     LastSeg(d, l, a) + FirstSeg(d, l, b))
      ensures Fits(d, w, UnmergedOwn(w, c, l, pre, k, post, q), w1, c, l, a + b)
    {
      MergeCompletes(d, w, c, l, a, b, pre, k, post, q, w1, kNew);
    }
  }

  lemma MergeCompletes(d: Draws, w: Blobs, c: Ident, l: nat, a: seq<Item>, b: seq<Item>,
                       pre: seq<Ident>, k: Ident, post: seq<Ident>, q: Ident, w1: Blobs, kNew: Ident)
    requires l > 0 && Unmerged(d, w, c, l, a, b, pre, k, post, q) && kNew !in w
    requires k in w && q in w && !w[k].Blank? && !w[q].Blank? && (w[k].Leaf? <==> w[q].Leaf?)
             && (w[q].Internal? ==> w[q].children != [])
    requires Fits(d, Merge(w, c, pre, k, post, q, kNew), Own(w, k, l - 1) + Own(w, q, l - 1) - {k, q} + {kNew}, w1,
                  kNew, l - 1, LastSeg(d, l, a) + FirstSeg(d, l, b))
    ensures Fits(d, w, UnmergedOwn(w, c, l, pre, k, post, q), w1, c, l, a + b)
  {
    UnmergedInStore(d, w, c, l, a, b, pre, k, post, q);
    MergeSwap(w, Merge(w, c, pre, k, post, q, kNew), c, k, q, kNew, Own(w, k, l - 1) + Own(w, q, l - 1), w1,
              Own(w1, kNew, l - 1));
    MergeMends(d, w, c, l, a, b, pre, k, post, q, w1, kNew);
  }
}

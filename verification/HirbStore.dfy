/** How a HIRB tree lies in the blob map: nodes that name their children by ident. */
module HirbStore {
  import opened HirbShape
  import opened BlobMap

  /** A node as it is pickled.  A blob that was created but never set is `Blank`. */
  datatype Node =
    | Blank
    | Leaf(lhashes: seq<Hash>, values: seq<Value>)
    | Internal(lhashes: seq<Hash>, values: seq<Value>, children: seq<Ident>)

  type Blobs = map<Ident, Node>

  /** The root is not kept in the vORAM; in specifications it has the ident 0, which no generated
      ident is. */
  const ROOT: Ident := 0

  /** The idents of the subtree whose top node is c, c included. */
  ghost function Own(w: Blobs, c: Ident, l: nat): set<Ident>
    decreases l, 0
  {
    if l == 0 || c !in w || !w[c].Internal? then {c} else {c} + OwnAll(w, w[c].children, l - 1)
  }

  ghost function OwnAll(w: Blobs, cs: seq<Ident>, l: nat): set<Ident>
    decreases l, |cs| + 1
  {
    if cs == [] then {} else Own(w, cs[0], l) + OwnAll(w, cs[1..], l)
  }

  /** The subtree at c is the tree of height l with the items s, and no ident occurs in it twice. */
  ghost predicate Rep(d: Draws, w: Blobs, c: Ident, l: nat, s: seq<Item>)
    decreases l, 0
  {
    && c in w
    && !w[c].Blank?
    && w[c].lhashes == Hashes(Seps(d, l, s))
    && w[c].values == Values(Seps(d, l, s))
    && (if l == 0 then w[c].Leaf?
        else
          && w[c].Internal? && RepAll(d, w, w[c].children, l - 1, Segs(d, l, s))
          && c !in OwnAll(w, w[c].children, l - 1))
  }

  ghost predicate RepAll(d: Draws, w: Blobs, cs: seq<Ident>, l: nat, segs: seq<seq<Item>>)
    decreases l, |cs| + 1
  {
    if cs == [] then segs == []
    else
      && segs != []
      && Rep(d, w, cs[0], l, segs[0])
      && RepAll(d, w, cs[1..], l, segs[1..])
      && Own(w, cs[0], l) !! OwnAll(w, cs[1..], l)
  }

  lemma {:induction false} OwnAllConcat(w: Blobs, a: seq<Ident>, b: seq<Ident>, l: nat)
    ensures OwnAll(w, a + b, l) == OwnAll(w, a, l) + OwnAll(w, b, l)
  {
    if a == [] {
      assert a + b == b;
    } else {
      OwnAllConcat(w, a[1..], b, l);
      assert (a + b)[1..] == a[1..] + b;
    }
  }

  /** A list of subtrees splits and joins wherever the list of their segments does. */
  lemma {:induction false} RepAllConcat(d: Draws, w: Blobs, a: seq<Ident>, b: seq<Ident>, l: nat, sa: seq<seq<Item>>,
                                        sb: seq<seq<Item>>)
    requires |a| == |sa|
    ensures RepAll(d, w, a + b, l, sa + sb) <==>
            RepAll(d, w, a, l, sa) && RepAll(d, w, b, l, sb) && OwnAll(w, a, l) !! OwnAll(w, b, l)
  {
    OwnAllConcat(w, a, b, l);
    if a == [] {
      assert a + b == b && sa + sb == sb;
    } else {
      RepAllConcat(d, w, a[1..], b, l, sa[1..], sb);
      OwnAllConcat(w, a[1..], b, l);
      assert (a + b)[1..] == a[1..] + b;
      assert (sa + sb)[1..] == sa[1..] + sb;
    }
  }

  lemma {:induction false} RepAllLength(d: Draws, w: Blobs, cs: seq<Ident>, l: nat, segs: seq<seq<Item>>)
    requires RepAll(d, w, cs, l, segs)
    ensures |cs| == |segs|
  {
    if cs != [] {
      RepAllLength(d, w, cs[1..], l, segs[1..]);
    }
  }

  lemma RepAllOne(d: Draws, w: Blobs, k: Ident, l: nat, s: seq<Item>)
    ensures RepAll(d, w, [k], l, [s]) <==> Rep(d, w, k, l, s)
    ensures OwnAll(w, [k], l) == Own(w, k, l)
  {
    assert RepAll(d, w, [k][1..], l, [s][1..]);
    assert OwnAll(w, [k][1..], l) == {};
  }

  /** A subtree depends on nothing but its own blobs. */
  lemma {:induction false} RepFrame(d: Draws, w: Blobs, w1: Blobs, c: Ident, l: nat, s: seq<Item>)
    requires Rep(d, w, c, l, s)
    requires Agree(w, w1, Own(w, c, l))
    ensures Rep(d, w1, c, l, s) && Own(w1, c, l) == Own(w, c, l) <= w.Keys
    decreases l, 0
  {
    assert c in Own(w, c, l);
    if l > 0 {
      RepAllFrame(d, w, w1, w[c].children, l - 1, Segs(d, l, s));
    }
  }

  lemma {:induction false} RepAllFrame(d: Draws, w: Blobs, w1: Blobs, cs: seq<Ident>, l: nat, segs: seq<seq<Item>>)
    requires RepAll(d, w, cs, l, segs)
    requires Agree(w, w1, OwnAll(w, cs, l))
    ensures RepAll(d, w1, cs, l, segs) && OwnAll(w1, cs, l) == OwnAll(w, cs, l) <= w.Keys
    decreases l, |cs| + 1
  {
    if cs != [] {
      RepFrame(d, w, w1, cs[0], l, segs[0]);
      RepAllFrame(d, w, w1, cs[1..], l, segs[1..]);
    }
  }

  /** w1 keeps those blobs of w that are named in `ids`. */
  ghost predicate Agree(w: Blobs, w1: Blobs, ids: set<Ident>) {
    forall k <- ids :: k in w ==> k in w1 && w1[k] == w[k]
  }

  // ---------------------------------------------------------------- what is left to happen

  /** From w to w1 the blobs in `gone` were given up for those in `come`; nothing else changed. */
  ghost predicate Swap(w: Blobs, gone: set<Ident>, w1: Blobs, come: set<Ident>) {
    && Agree(w, w1, w.Keys - gone)
    && w1.Keys == (w.Keys - gone) + come
    && come !! (w.Keys - gone)
  }

  /** In w1 the subtree at c holds s, and outside it w1 is what w was outside `gone`. */
  ghost predicate Fits(d: Draws, w: Blobs, gone: set<Ident>, w1: Blobs, c: Ident, l: nat, s: seq<Item>) {
    && Rep(d, w1, c, l, s)
    && Swap(w, gone, w1, Own(w1, c, l))
  }

  /** The tree at the root holds s, and the store holds no other blob. */
  ghost predicate Whole(d: Draws, w: Blobs, h: nat, s: seq<Item>) {
    && Rep(d, w, ROOT, h, s)
    && w.Keys == Own(w, ROOT, h)
  }

  /** Moving the top blob of a subtree to another ident moves the subtree. */
  lemma RepMoved(d: Draws, w: Blobs, w1: Blobs, k: Ident, next: Ident, l: nat, s: seq<Item>)
    requires Rep(d, w, k, l, s)
    requires next !in w
    requires next in w1 && w1[next] == w[k]
    requires Agree(w, w1, Own(w, k, l) - {k})
    ensures Rep(d, w1, next, l, s)
    ensures Own(w1, next, l) == Own(w, k, l) - {k} + {next}
  {
    if l > 0 {
      RepAllFrame(d, w, w1, w[k].children, l - 1, Segs(d, l, s));
    }
  }

  lemma RepAllSnoc(d: Draws, w: Blobs, pre: seq<Ident>, k: Ident, l: nat, sPre: seq<seq<Item>>, sk: seq<Item>)
    requires |pre| == |sPre| && RepAll(d, w, pre, l, sPre) && Rep(d, w, k, l, sk)
    requires OwnAll(w, pre, l) !! Own(w, k, l)
    ensures RepAll(d, w, pre + [k], l, sPre + [sk])
    ensures OwnAll(w, pre + [k], l) == OwnAll(w, pre, l) + Own(w, k, l)
  {
    RepAllOne(d, w, k, l, sk);
    RepAllConcat(d, w, pre, [k], l, sPre, [sk]);
    OwnAllConcat(w, pre, [k], l);
  }

  lemma AllAround(d: Draws, w: Blobs, pre: seq<Ident>, k: Ident, post: seq<Ident>, l: nat,
                  sPre: seq<seq<Item>>, sk: seq<Item>, sPost: seq<seq<Item>>)
    requires |pre| == |sPre|
    requires RepAll(d, w, pre + [k] + post, l, sPre + [sk] + sPost)
    ensures RepAll(d, w, pre, l, sPre) && Rep(d, w, k, l, sk) && RepAll(d, w, post, l, sPost)
    ensures OwnAll(w, pre, l) !! Own(w, k, l) && OwnAll(w, post, l) !! Own(w, k, l)
            && OwnAll(w, pre, l) !! OwnAll(w, post, l)
  {
    RepAllConcat(d, w, pre + [k], post, l, sPre + [sk], sPost);
    RepAllConcat(d, w, pre, [k], l, sPre, [sk]);
    RepAllOne(d, w, k, l, sk);
    OwnAllConcat(w, pre, [k], l);
  }

  lemma OwnAround(w: Blobs, pre: seq<Ident>, k: Ident, post: seq<Ident>, l: nat)
    ensures OwnAll(w, pre + [k] + post, l) == OwnAll(w, pre, l) + Own(w, k, l) + OwnAll(w, post, l)
  {
    OwnAllConcat(w, pre + [k], post, l);
    OwnAllConcat(w, pre, [k], l);
    assert OwnAll(w, [k][1..], l) == {};
  }

  /** The subtrees on both sides of the ones that an operation works on, below a node at c. */
  ghost predicate Sides(d: Draws, w: Blobs, c: Ident, pre: seq<Ident>, sPre: seq<seq<Item>>,
                        post: seq<Ident>, sPost: seq<seq<Item>>, l: nat) {
    && |pre| == |sPre|
    && RepAll(d, w, pre, l, sPre)
    && RepAll(d, w, post, l, sPost)
    && OwnAll(w, pre, l) !! OwnAll(w, post, l)
    && c !in Flank(w, pre, post, l)
  }

  ghost function Flank(w: Blobs, pre: seq<Ident>, post: seq<Ident>, l: nat): set<Ident> {
    OwnAll(w, pre, l) + OwnAll(w, post, l)
  }

  lemma SidesKept(d: Draws, w: Blobs, w1: Blobs, c: Ident, pre: seq<Ident>, sPre: seq<seq<Item>>,
                  post: seq<Ident>, sPost: seq<seq<Item>>, l: nat)
    requires Sides(d, w, c, pre, sPre, post, sPost, l)
    requires Agree(w, w1, Flank(w, pre, post, l))
    ensures Sides(d, w1, c, pre, sPre, post, sPost, l)
    ensures Flank(w1, pre, post, l) == Flank(w, pre, post, l) <= w.Keys
  {
    RepAllFrame(d, w, w1, pre, l, sPre);
    RepAllFrame(d, w, w1, post, l, sPost);
  }

  /** The children of a node around one of them: those before, it, and those after. */
  lemma Around(d: Draws, w: Blobs, c: Ident, l: nat, s: seq<Item>, pre: seq<Ident>, k: Ident, post: seq<Ident>,
               sPre: seq<seq<Item>>, sk: seq<Item>, sPost: seq<seq<Item>>)
    requires l > 0 && Rep(d, w, c, l, s)
    requires w[c].children == pre + [k] + post
    requires Segs(d, l, s) == sPre + [sk] + sPost && |pre| == |sPre|
    ensures Sides(d, w, c, pre, sPre, post, sPost, l - 1) && Rep(d, w, k, l - 1, sk)
    ensures Flank(w, pre, post, l - 1) !! Own(w, k, l - 1)
    ensures Own(w, c, l) == {c} + Flank(w, pre, post, l - 1) + Own(w, k, l - 1) <= w.Keys
    ensures c !in Own(w, k, l - 1) && k in w && k != c
  {
    RepFrame(d, w, w, c, l, s);
    AllAround(d, w, pre, k, post, l - 1, sPre, sk, sPost);
    OwnAround(w, pre, k, post, l - 1);
  }

  lemma AllAssemble(d: Draws, w: Blobs, pre: seq<Ident>, mid: seq<Ident>, post: seq<Ident>, l: nat,
                    sPre: seq<seq<Item>>, sMid: seq<seq<Item>>, sPost: seq<seq<Item>>)
    requires |pre| == |sPre| && |mid| == |sMid|
    requires RepAll(d, w, pre, l, sPre) && RepAll(d, w, mid, l, sMid) && RepAll(d, w, post, l, sPost)
    requires OwnAll(w, pre, l) !! OwnAll(w, mid, l)
    requires OwnAll(w, post, l) !! OwnAll(w, pre, l) + OwnAll(w, mid, l)
    ensures RepAll(d, w, pre + mid + post, l, sPre + sMid + sPost)
    ensures OwnAll(w, pre + mid + post, l) == OwnAll(w, pre, l) + OwnAll(w, mid, l) + OwnAll(w, post, l)
  {
    OwnAllConcat(w, pre, mid, l);
    OwnAllConcat(w, pre + mid, post, l);
    RepAllConcat(d, w, pre, mid, l, sPre, sMid);
    RepAllConcat(d, w, pre + mid, post, l, sPre + sMid, sPost);
  }

  /** The converse: a node is made of a list of subtrees between others. */
  lemma Assemble(d: Draws, w: Blobs, c: Ident, l: nat, s: seq<Item>, pre: seq<Ident>, mid: seq<Ident>, post: seq<Ident>,
                 sPre: seq<seq<Item>>, sMid: seq<seq<Item>>, sPost: seq<seq<Item>>)
    requires l > 0 && c in w && w[c].Internal?
    requires w[c].lhashes == Hashes(Seps(d, l, s)) && w[c].values == Values(Seps(d, l, s))
    requires w[c].children == pre + mid + post && Segs(d, l, s) == sPre + sMid + sPost
    requires Sides(d, w, c, pre, sPre, post, sPost, l - 1) && RepAll(d, w, mid, l - 1, sMid)
    requires Flank(w, pre, post, l - 1) !! OwnAll(w, mid, l - 1)
    requires c !in OwnAll(w, mid, l - 1)
    ensures Rep(d, w, c, l, s)
    ensures Own(w, c, l) == {c} + Flank(w, pre, post, l - 1) + OwnAll(w, mid, l - 1)
  {
    hide RepAll, OwnAll, Seps, Segs;
    RepAllLength(d, w, mid, l - 1, sMid);
    AllAssemble(d, w, pre, mid, post, l - 1, sPre, sMid, sPost);
  }

  lemma AssembleOne(d: Draws, w: Blobs, c: Ident, l: nat, s: seq<Item>, pre: seq<Ident>, k: Ident, post: seq<Ident>,
                    sPre: seq<seq<Item>>, sk: seq<Item>, sPost: seq<seq<Item>>)
    requires l > 0 && c in w && w[c].Internal?
    requires w[c].lhashes == Hashes(Seps(d, l, s)) && w[c].values == Values(Seps(d, l, s))
    requires w[c].children == pre + [k] + post && Segs(d, l, s) == sPre + [sk] + sPost
    requires Sides(d, w, c, pre, sPre, post, sPost, l - 1) && Rep(d, w, k, l - 1, sk)
    requires Flank(w, pre, post, l - 1) !! Own(w, k, l - 1)
    requires c !in Own(w, k, l - 1)
    ensures Rep(d, w, c, l, s)
    ensures Own(w, c, l) == {c} + Flank(w, pre, post, l - 1) + Own(w, k, l - 1)
  {
    RepAllOne(d, w, k, l - 1, sk);
    Assemble(d, w, c, l, s, pre, [k], post, sPre, [sk], sPost);
  }

  /** The store after the child k of c has moved to the fresh ident `next`. */
  function Renamed(w: Blobs, c: Ident, pre: seq<Ident>, k: Ident, post: seq<Ident>, next: Ident): Blobs
    requires c in w && w[c].Internal? && k in w
  {
    (w - {k})[c := w[c].(children := pre + [next] + post)][next := w[k]]
  }

  /** Completing a child completes its parent. */
  lemma Ascend(d: Draws, w: Blobs, c: Ident, l: nat, s: seq<Item>, pre: seq<Ident>, k: Ident, post: seq<Ident>,
               sPre: seq<seq<Item>>, sk: seq<Item>, sPost: seq<seq<Item>>,
               w1: Blobs, next: Ident, seg: seq<Item>, sNew: seq<Item>)
    requires l > 0 && Rep(d, w, c, l, s)
    requires w[c].children == pre + [k] + post
    requires Segs(d, l, s) == sPre + [sk] + sPost && |pre| == |sPre|
    requires Seps(d, l, sNew) == Seps(d, l, s) && Segs(d, l, sNew) == sPre + [seg] + sPost
    requires c in w1 && w1[c] == w[c].(children := pre + [next] + post)
    requires Rep(d, w1, next, l - 1, seg) && c !in Own(w1, next, l - 1)
    requires Swap(w, Own(w, k, l - 1) + {c}, w1, Own(w1, next, l - 1) + {c})
    ensures Fits(d, w, Own(w, c, l), w1, c, l, sNew)
  {
    Around(d, w, c, l, s, pre, k, post, sPre, sk, sPost);
    SidesKept(d, w, w1, c, pre, sPre, post, sPost, l - 1);
    AssembleOne(d, w1, c, l, sNew, pre, next, post, sPre, seg, sPost);
  }

  /** One step down: after the child is renamed, whatever is done to the child's subtree completes
      the parent's. */
  lemma Descend(d: Draws, w: Blobs, c: Ident, l: nat, s: seq<Item>, pre: seq<Ident>, k: Ident, post: seq<Ident>,
                sPre: seq<seq<Item>>, sk: seq<Item>, sPost: seq<seq<Item>>,
                next: Ident, seg: seq<Item>, sNew: seq<Item>)
    requires l > 0 && Rep(d, w, c, l, s)
    requires w[c].children == pre + [k] + post
    requires next !in w
    requires Segs(d, l, s) == sPre + [sk] + sPost && |pre| == |sPre|
    requires Seps(d, l, sNew) == Seps(d, l, s) && Segs(d, l, sNew) == sPre + [seg] + sPost
    ensures k in w && k != c
    ensures var w' := Renamed(w, c, pre, k, post, next);
      && Rep(d, w, k, l - 1, sk) && k in Own(w, c, l)
      && Rep(d, w', next, l - 1, sk)
      && Own(w', next, l - 1) <= Own(w, c, l) + {next} - {c}
      && forall w1 :: Fits(d, w', Own(w', next, l - 1), w1, next, l - 1, seg) ==>
         Fits(d, w, Own(w, c, l), w1, c, l, sNew)
  {
    Around(d, w, c, l, s, pre, k, post, sPre, sk, sPost);
    var w' := Renamed(w, c, pre, k, post, next);
    RepMoved(d, w, w', k, next, l - 1, sk);
    forall w1 | Fits(d, w', Own(w', next, l - 1), w1, next, l - 1, seg)
      ensures Fits(d, w, Own(w, c, l), w1, c, l, sNew)
    {
      SwapRenamed(w, c, pre, k, post, next, Own(w, k, l - 1), w1, Own(w1, next, l - 1));
      Ascend(d, w, c, l, s, pre, k, post, sPre, sk, sPost, w1, next, seg, sNew);
    }
  }

  lemma SwapRenamed(w: Blobs, c: Ident, pre: seq<Ident>, k: Ident, post: seq<Ident>, next: Ident, own: set<Ident>,
                    w1: Blobs, come: set<Ident>)
    requires c in w && w[c].Internal? && k in own && own <= w.Keys && c !in own && next !in w
    requires Swap(Renamed(w, c, pre, k, post, next), own - {k} + {next}, w1, come)
    ensures c in w1 && w1[c] == w[c].(children := pre + [next] + post) && c !in come
    ensures Swap(w, own + {c}, w1, come + {c})
  {
    var w' := Renamed(w, c, pre, k, post, next);
    assert c in w'.Keys - (own - {k} + {next});
  }

  /** `Descend` at the place where the items m hang between a and b. */
  lemma DescendAt(d: Draws, w: Blobs, c: Ident, l: nat, a: seq<Item>, m: seq<Item>, b: seq<Item>, next: Ident,
                  m': seq<Item>)
    requires l > 0 && Rep(d, w, c, l, a + m + b)
    requires NoneTall(d, l, m) && NoneTall(d, l, m')
    requires next !in w
    ensures var i := |Seps(d, l, a)|;
      && i < |w[c].children|
      && w[c].children[i] in w && w[c].children[i] != c
      && Rep(d, w, w[c].children[i], l - 1, LastSeg(d, l, a) + m + FirstSeg(d, l, b))
      && w[c].children[i] in Own(w, c, l)
      && var w' := Moved(w, c, i, next);
      && Rep(d, w', next, l - 1, LastSeg(d, l, a) + m + FirstSeg(d, l, b))
      && Own(w', next, l - 1) <= Own(w, c, l) + {next} - {c}
      && forall w1 :: Fits(d, w', Own(w', next, l - 1), w1, next, l - 1, LastSeg(d, l, a) + m' + FirstSeg(d, l, b))
                      ==> Fits(d, w, Own(w, c, l), w1, c, l, a + m' + b)
  {
    SegsWithin(d, l, a, m, b);
    SegsWithin(d, l, a, m', b);
    var cs, i := w[c].children, |Seps(d, l, a)|;
    RepAllLength(d, w, cs, l - 1, Segs(d, l, a + m + b));
    Divide(cs, i);
    Descend(d, w, c, l, a + m + b, cs[..i], cs[i], cs[i + 1..],
            Front(d, l, a), LastSeg(d, l, a) + m + FirstSeg(d, l, b), Segs(d, l, b)[1..],
            next, LastSeg(d, l, a) + m' + FirstSeg(d, l, b), a + m' + b);
    assert cs[i := next] == cs[..i] + [next] + cs[i + 1..];
  }

  lemma Divide<T>(s: seq<T>, i: nat)
    requires i < |s|
    ensures s == s[..i] + [s[i]] + s[i + 1..]
  {
  }

  /** The store after the child at index i of c has moved to the fresh ident `next`. */
  function Moved(w: Blobs, c: Ident, i: nat, next: Ident): Blobs
    requires c in w && w[c].Internal? && i < |w[c].children| && w[c].children[i] in w
  {
    (w - {w[c].children[i]})[c := w[c].(children := w[c].children[i := next])][next := w[w[c].children[i]]]
  }
}

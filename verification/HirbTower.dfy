/** Building the tree in bulk: a tower with one open node on every level, which is filled from
    sorted items and closed off from the bottom. */
module HirbTower {
  import opened Bits
  import opened HirbShape
  import opened BlobMap
  import opened HirbStore
  import opened HirbSplit
  import opened HirbGrow

  /** The tower t stands on level c and reaches up to level l.  It has taken in the items q: the
      bottom node has all its children, every other node lacks the last one, which is to be the
      node below it. */
  ghost predicate Tower(d: Draws, w: Blobs, t: seq<Node>, l: nat, c: nat, q: seq<Item>)
    decreases l
  {
    && c <= l && |t| == l - c + 1
    && !t[0].Blank? && (t[0].Leaf? <==> l == 0)
    && t[0].lhashes == Hashes(Seps(d, l, q)) && t[0].values == Values(Seps(d, l, q))
    && if l == c then l > 0 ==> RepAll(d, w, t[0].children, l - 1, Segs(d, l, q))
       else
         && |t[0].children| == |Seps(d, l, q)|
         && RepAll(d, w, t[0].children, l - 1, Front(d, l, q))
         && Tower(d, w, t[1..], l - 1, c, LastSeg(d, l, q))
         && OwnAll(w, t[0].children, l - 1) !! TowerOwn(w, t[1..], l - 1)
  }

  /** The idents below the nodes of a tower. */
  ghost function TowerOwn(w: Blobs, t: seq<Node>, l: nat): set<Ident>
    decreases l
  {
    if t == [] || l == 0 || !t[0].Internal? then {}
    else OwnAll(w, t[0].children, l - 1) + TowerOwn(w, t[1..], l - 1)
  }

  lemma {:induction false} TowerFrame(d: Draws, w: Blobs, w1: Blobs, t: seq<Node>, l: nat, c: nat, q: seq<Item>)
    requires Tower(d, w, t, l, c, q) && Agree(w, w1, TowerOwn(w, t, l))
    ensures Tower(d, w1, t, l, c, q) && TowerOwn(w1, t, l) == TowerOwn(w, t, l) <= w.Keys
    decreases l
  {
    hide RepAll, OwnAll, Seps, Segs;
    if l > 0 {
      if l == c {
        RepAllFrame(d, w, w1, t[0].children, l - 1, Segs(d, l, q));
        assert t[1..] == [];
      } else {
        RepAllFrame(d, w, w1, t[0].children, l - 1, Front(d, l, q));
        TowerFrame(d, w, w1, t[1..], l - 1, c, LastSeg(d, l, q));
      }
    }
  }

  function WithChild(n: Node, id: Ident): Node
    requires n.Internal?
  {
    n.(children := n.children + [id])
  }

  /** The tower without its bottom node, which has become the last child of the one above it. */
  function Closed(t: seq<Node>, id: Ident): seq<Node>
    requires |t| >= 2 && t[|t| - 2].Internal?
  {
    t[..|t| - 2] + [WithChild(t[|t| - 2], id)]
  }

  lemma {:induction false} TowerInternal(d: Draws, w: Blobs, t: seq<Node>, l: nat, c: nat, q: seq<Item>, i: nat)
    requires Tower(d, w, t, l, c, q) && i < |t|
    ensures !t[i].Blank? && (t[i].Internal? <==> i < l)
    decreases l
  {
    if i > 0 {
      TowerInternal(d, w, t[1..], l - 1, c, LastSeg(d, l, q), i - 1);
    }
  }

  /** Closing off the bottom node: it is written under a fresh ident. */
  lemma {:induction false} Close(d: Draws, w: Blobs, t: seq<Node>, l: nat, c: nat, q: seq<Item>, id: Ident)
    requires Tower(d, w, t, l, c, q) && c < l && id !in w
    ensures t[|t| - 2].Internal? && !t[|t| - 1].Blank?
    ensures var w' := w[id := t[|t| - 1]];
      && Tower(d, w', Closed(t, id), l, c + 1, q)
      && TowerOwn(w', Closed(t, id), l) == TowerOwn(w, t, l) + {id}
    decreases l
  {
    hide RepAll, OwnAll, Seps, Segs, LastSeg, Front;
    TowerInternal(d, w, t, l, c, q, |t| - 2);
    TowerInternal(d, w, t, l, c, q, |t| - 1);
    TowerFrame(d, w, w, t, l, c, q);
    var w' := w[id := t[|t| - 1]];
    RepAllFrame(d, w, w', t[0].children, l - 1, Front(d, l, q));
    if l == c + 1 {
      CloseBottom(d, w, t, l, q, id);
    } else {
      Close(d, w, t[1..], l - 1, c, LastSeg(d, l, q), id);
      assert Closed(t, id)[1..] == Closed(t[1..], id);
      assert Closed(t, id)[0] == t[0];
      assert t[1..][|t[1..]| - 1] == t[|t| - 1];
    }
  }

  lemma CloseBottom(d: Draws, w: Blobs, t: seq<Node>, l: nat, q: seq<Item>, id: Ident)
    requires l > 0 && Tower(d, w, t, l, l - 1, q) && id !in w
    ensures t[0].Internal? && !t[1].Blank?
    ensures var w' := w[id := t[1]];
      && Tower(d, w', [WithChild(t[0], id)], l, l, q)
      && TowerOwn(w', [WithChild(t[0], id)], l) == TowerOwn(w, t, l) + {id}
      && Closed(t, id) == [WithChild(t[0], id)]
  {
    hide Glue, Seps, Segs, LastSeg, Front;
    TowerFrame(d, w, w, t, l, l - 1, q);
    var w' := w[id := t[1]];
    var s := LastSeg(d, l, q);
    var below := t[1..];
    assert |below| == 1 && below[0] == t[1] && below[1..] == [];
    assert TowerOwn(w, below, l - 1) == if l > 1 then OwnAll(w, t[1].children, l - 2) else {};
    assert [WithChild(t[0], id)][1..] == [];
    if l > 1 {
      RepAllFrame(d, w, w', t[1].children, l - 2, Segs(d, l - 1, s));
    }
    assert Rep(d, w', id, l - 1, s);
    RepAllFrame(d, w, w', t[0].children, l - 1, Front(d, l, q));
    FrontLast(d, l, q);
    RepAllSnoc(d, w', t[0].children, id, l - 1, Front(d, l, q), s);
  }

  function WithLast(n: Node, x: Item): Node
    requires !n.Blank?
  {
    n.(lhashes := n.lhashes + [x.hash], values := n.values + [x.value])
  }

  /** New nodes for the levels below c. */
  function Empties(c: nat): (r: seq<Node>)
    ensures |r| == c
  {
    if c == 0 then [] else [if c == 1 then Leaf([], []) else Internal([], [], [])] + Empties(c - 1)
  }

  lemma {:induction false} EmptyTower(d: Draws, w: Blobs, l: nat)
    ensures Tower(d, w, Empties(l + 1), l, 0, []) && TowerOwn(w, Empties(l + 1), l) == {}
  {
    var t := Empties(l + 1);
    assert t[1..] == Empties(l);
    if l > 0 {
      EmptyTower(d, w, l - 1);
      assert LastSeg(d, l, []) == [];
    }
  }

  /** An item goes into the bottom node of a tower that stands on the item's level, and new nodes
      are put below it. */
  lemma {:induction false} Add(d: Draws, w: Blobs, t: seq<Node>, l: nat, c: nat, q: seq<Item>, x: Item)
    requires Tower(d, w, t, l, c, q) && Tall(d, x.hash, c) && (c < l ==> !Tall(d, x.hash, c + 1))
    ensures var n := |t| - 1;
      && !t[n].Blank?
      && Tower(d, w, t[..n] + [WithLast(t[n], x)] + Empties(c), l, 0, q + [x])
      && TowerOwn(w, t[..n] + [WithLast(t[n], x)] + Empties(c), l) == TowerOwn(w, t, l)
    decreases l
  {
    hide RepAll, OwnAll, Seps, Segs, LastSeg, Front, Tall, Empties;
    var n := |t| - 1;
    TowerInternal(d, w, t, l, c, q, n);
    var t' := t[..n] + [WithLast(t[n], x)] + Empties(c);
    if l == c {
      AddBottom(d, w, t, l, q, x, t');
    } else {
      TallUp(d, x.hash, c + 1, l);
      AddAbove(d, l, q, x);
      Add(d, w, t[1..], l - 1, c, LastSeg(d, l, q), x);
      assert t'[1..] == t[1..][..n - 1] + [WithLast(t[1..][n - 1], x)] + Empties(c);
      assert t'[0] == t[0];
    }
  }

  lemma AddAbove(d: Draws, l: nat, q: seq<Item>, x: Item)
    requires !Tall(d, x.hash, l)
    ensures Seps(d, l, q + [x]) == Seps(d, l, q)
    ensures Front(d, l, q + [x]) == Front(d, l, q)
    ensures LastSeg(d, l, q + [x]) == LastSeg(d, l, q) + [x]
  {
    NoSeps(d, l, [x]);
    SepsConcat(d, l, q, [x]);
    SegsMeet(d, l, q, [x]);
  }

  lemma AddBottom(d: Draws, w: Blobs, t: seq<Node>, l: nat, q: seq<Item>, x: Item, t': seq<Node>)
    requires Tower(d, w, t, l, l, q) && Tall(d, x.hash, l) && !t[0].Blank?
    requires t' == [WithLast(t[0], x)] + Empties(l)
    ensures Tower(d, w, t', l, 0, q + [x])
    ensures TowerOwn(w, t', l) == TowerOwn(w, t, l)
  {
    hide RepAll, OwnAll, Tall, Seps, Segs, Front, LastSeg, Empties;
    SegsSnoc(d, l, q, x);
    HashesConcat(Seps(d, l, q), [x]);
    assert t'[1..] == Empties(l);
    assert t[1..] == [];
    if l > 0 {
      RepAllLength(d, w, t[0].children, l - 1, Segs(d, l, q));
      EmptyTower(d, w, l - 1);
    }
  }

  /** A tower that stands on its top level is a tree. */
  lemma TowerDone(d: Draws, w: Blobs, t: seq<Node>, l: nat, q: seq<Item>)
    requires Tower(d, w, t, l, l, q) && TowerOwn(w, t, l) == w.Keys && ROOT !in w
    ensures Whole(d, w[ROOT := t[0]], l, q)
  {
    TowerFrame(d, w, w[ROOT := t[0]], t, l, l, q);
    assert t[1..] == [];
  }

  lemma TowerSize(d: Draws, w: Blobs, t: seq<Node>, l: nat, c: nat, q: seq<Item>)
    requires Tower(d, w, t, l, c, q)
    ensures |t| == l - c + 1
  {
  }

  lemma {:induction false} EmptiesAt(c: nat, i: nat)
    requires i < c
    ensures Empties(c)[i] == if i == c - 1 then Leaf([], []) else Internal([], [], [])
  {
    if i > 0 {
      EmptiesAt(c - 1, i - 1);
    }
  }

  function Pow(b: nat, h: nat): nat {
    if h == 0 then 1 else Pow(b, h - 1) * b
  }

  lemma {:induction false} PowAdd(b: nat, h: nat, k: nat)
    ensures Pow(b, h + k) == Pow(b, h) * Pow(b, k) && Pow(b, 1) == b
    decreases k
  {
    if k > 0 {
      PowAdd(b, h, k - 1);
      assert Pow(b, h + k) == Pow(b, h + (k - 1)) * b;
      assert Pow(b, h) * Pow(b, k - 1) * b == Pow(b, h) * (Pow(b, k - 1) * b);
    }
  }

  lemma {:induction false} PowPositive(b: nat, h: nat)
    requires b >= 1
    ensures Pow(b, h) >= 1
  {
    if h > 0 {
      PowPositive(b, h - 1);
    }
  }

  /** The size at which a tree of height h grows. */
  function Threshold(leafB: nat, b: nat, h: nat): nat {
    (leafB + 3) / 4 * Pow(b, h)
  }

  /** How the threshold begins, and how it grows with the height. */
  lemma ThresholdSteps(leafB: nat, b: nat, h: nat)
    requires leafB >= 1 && b >= 1
    ensures Threshold(leafB, b, 0) == (leafB + 3) / 4
    ensures Threshold(leafB, b, h + 1) == Threshold(leafB, b, h) * b
    ensures Threshold(leafB, b, h) >= 1
    ensures b >= 2 ==> Threshold(leafB, b, h + 1) > Threshold(leafB, b, h)
  {
    PowPositive(b, h);
    var g, p := (leafB + 3) / 4, Pow(b, h);
    assert g * (p * b) == g * p * b;
    assert g * p >= 1;
    assert b >= 2 ==> g * p * b >= g * p * 2;
  }

  /** The threshold is a quarter of leafB, rounded up, times a power of b. */
  lemma ThresholdUnit(leafB: nat, b: nat, h: nat)
    requires leafB >= 1 && b >= 1
    ensures Pow(b, h) > 0
    ensures var g := Threshold(leafB, b, h) / Pow(b, h);
            Threshold(leafB, b, h) == g * Pow(b, h) && 4 * (g - 1) < leafB <= 4 * g
  {
    PowPositive(b, h);
    DivideBack((leafB + 3) / 4, Pow(b, h));
  }
}

/** What the loops over a HIRB keep while they work their way down: the tree with the node in
    hand, what is still to be completed, and the rounds of path reads made so far. */
module HirbView {
  import opened Common
  import opened HirbShape
  import opened BlobMap
  import opened HirbStore
  import opened HirbSplit
  import opened HirbMerge
  import opened HirbNodes
  import opened HirbGrow

  lemma Absent(d: Draws, n: Node, l: nat, a: seq<Item>, m: seq<Item>, b: seq<Item>, x: Hash)
    requires Straddle(a, m, b, x) && Shows(d, n, l, a + m + b) && x !in n.lhashes
    ensures BisectLeft(n.lhashes, x) == |Seps(d, l, a)|
    ensures NoneTall(d, l, m)
  {
    FindIn(d, l, a, m, b, x);
  }

  lemma Present(d: Draws, n: Node, l: nat, a: seq<Item>, m: seq<Item>, b: seq<Item>, x: Hash)
    requires Straddle(a, m, b, x) && Shows(d, n, l, a + m + b)
    ensures var i := BisectLeft(n.lhashes, x);
      && (i < |n.lhashes| && n.lhashes[i] == x ==>
          m != [] && Tall(d, x, l) && i < |n.values| && n.values[i] == m[0].value)
      && (!(i < |n.lhashes| && n.lhashes[i] == x) ==> x !in n.lhashes)
    ensures l == 0 && x !in n.lhashes ==> m == []
    ensures (n.Leaf? <==> l == 0) && |m| <= 1
  {
    FindIn(d, l, a, m, b, x);
    SepsBelow(d, l, b, x);
    SepsConcat(d, l, a, m);
    SepsConcat(d, l, a + m, b);
  }

  // ---------------------------------------------------------------- the store

  /** The trace is oblivious, the state is the one that its calls lead to, and ROOT is kept apart: it
      counts as issued but is never used. */
  ghost predicate Sound(st: Store<Node>, issued: set<Ident>) {
    && st.Oblivious(issued) && Recorded(st)
    && ROOT in issued && ROOT !in st.blobs && ROOT !in st.Reads()
  }

  /** Generated, but not used yet. */
  ghost predicate Pregen(st: Store<Node>, issued: set<Ident>, id: Ident) {
    st.Reserved(issued, id) && id != ROOT
  }

  lemma IssueSound(st: Store<Node>, issued: set<Ident>, id: Ident)
    requires Sound(st, issued) && id !in issued
    ensures Sound(st, issued + {id}) && Pregen(st, issued + {id}, id)
    ensures forall y :: Pregen(st, issued, y) ==> Pregen(st, issued + {id}, y)
  {
  }

  lemma FinalizeSound(st: Store<Node>, issued: set<Ident>)
    requires Sound(st, issued)
    ensures Sound(st.Finalize(), issued)
    ensures forall y :: Pregen(st, issued, y) ==> Pregen(st.Finalize(), issued, y)
  {
    FinalizeOblivious(st, issued);
    RecordedNext(st, FinalizeCall);
  }

  lemma SetSound(st: Store<Node>, issued: set<Ident>, id: Ident, b: Node)
    requires Sound(st, issued) && id in st.cached
    ensures Sound(st.Set(id, b), issued)
    ensures forall y :: Pregen(st, issued, y) ==> Pregen(st.Set(id, b), issued, y)
  {
    assert st.Set(id, b).Reads() == st.Reads();
    RecordedNext(st, SetCall(id, b));
  }

  lemma FetchSound(st: Store<Node>, issued: set<Ident>, id: Ident, next: Ident)
    requires Sound(st, issued) && id in st.blobs && Pregen(st, issued, next)
    ensures Sound(st.Fetch(id, next), issued)
    ensures forall y :: Pregen(st, issued, y) && y != next ==> Pregen(st.Fetch(id, next), issued, y)
  {
    FetchOblivious(st, issued, id, next);
    if id !in st.cached {
      RecordedNext(st, FetchCall(id, next));
    }
  }

  lemma DummySound(st: Store<Node>, issued: set<Ident>, decoy: Ident)
    requires Sound(st, issued) && Pregen(st, issued, decoy)
    ensures Sound(st.DummyOp(decoy), issued)
  {
    DummyOblivious(st, issued, decoy);
    RecordedNext(st, DummyCall(decoy));
  }

  lemma CreateSound(st: Store<Node>, issued: set<Ident>, id: Ident)
    requires Sound(st, issued) && Pregen(st, issued, id)
    ensures Sound(st.Create(id, Blank), issued)
  {
    CreateOblivious(st, issued, id, Blank);
    RecordedNext(st, CreateCall(id, Blank));
  }

  lemma CreateReadSound(st: Store<Node>, issued: set<Ident>, decoy: Ident, id: Ident)
    requires Sound(st, issued) && Pregen(st, issued, decoy) && Pregen(st, issued, id) && decoy != id
    ensures Sound(st.CreateRead(decoy, id, Blank), issued)
  {
    CreateReadOblivious(st, issued, decoy, id, Blank);
    RecordedNext(st, CreateReadCall(decoy, id, Blank));
  }

  lemma RemoveSound(st: Store<Node>, issued: set<Ident>, id: Ident)
    requires Sound(st, issued) && id in st.cached
    ensures Sound(st.Remove(id), issued)
    ensures forall y :: Pregen(st, issued, y) ==> Pregen(st.Remove(id), issued, y)
  {
    assert st.Remove(id).Reads() == st.Reads();
    RecordedNext(st, RemoveCall(id));
  }

  /** The ident of the node in hand. */
  function At(ref: Option<Ident>): Ident {
    if ref.Some? then ref.value else ROOT
  }

  /** A node with the separators of level l. */
  ghost predicate Shows(d: Draws, n: Node, l: nat, s: seq<Item>) {
    !n.Blank? && n.lhashes == Hashes(Seps(d, l, s)) && n.values == Values(Seps(d, l, s)) && (n.Leaf? <==> l == 0)
  }

  /** The root names a child that is not there. */
  ghost predicate Lost(w: Blobs) {
    && ROOT in w && w[ROOT].Internal?
    && exists i :: 0 <= i < |w[ROOT].children| && w[ROOT].children[i] !in w
  }

  lemma PendingAll(d: Draws, w: Blobs, h: nat, all: seq<Item>, all': seq<Item>)
    requires Whole(d, w, h, all)
    ensures Pending(d, w, ROOT, h, all, all', h, all')
    ensures Shows(d, w[ROOT], h, all)
  {
    RepFrame(d, w, w, ROOT, h, all);
  }

  /** Whatever completes the subtree at c, now holding s, with sNew completes the whole tree. */
  ghost predicate Pending(d: Draws, w: Blobs, c: Ident, l: nat, s: seq<Item>, sNew: seq<Item>, h: nat, all: seq<Item>) {
    && Rep(d, w, c, l, s)
    && (c != ROOT ==> ROOT !in Own(w, c, l))
    && forall w1 :: Fits(d, w, Own(w, c, l), w1, c, l, sNew) ==> Whole(d, w1, h, all)
  }

  lemma PendingChild(d: Draws, w: Blobs, c: Ident, l: nat, a: seq<Item>, m: seq<Item>, b: seq<Item>)
    requires l > 0 && Rep(d, w, c, l, a + m + b) && NoneTall(d, l, m) && (c != ROOT ==> ROOT !in Own(w, c, l))
    ensures var i := |Seps(d, l, a)|;
      && i < |w[c].children|
      && var k := w[c].children[i];
      && k in w && k != c && k != ROOT
      && Rep(d, w, k, l - 1, LastSeg(d, l, a) + m + FirstSeg(d, l, b))
  {
    var next := FreshBound(w.Keys);
    DescendAt(d, w, c, l, a, m, b, next, m);
  }

  lemma PendingIndex(d: Draws, w: Blobs, c: Ident, l: nat, a: seq<Item>, m: seq<Item>, b: seq<Item>, m': seq<Item>,
                     h: nat, all: seq<Item>)
    requires l > 0 && Pending(d, w, c, l, a + m + b, a + m' + b, h, all) && NoneTall(d, l, m)
    ensures |Seps(d, l, a)| < |w[c].children|
    ensures var k := w[c].children[|Seps(d, l, a)|]; k in w && k != ROOT && (w[k].Leaf? <==> l == 1)
  {
    PendingChild(d, w, c, l, a, m, b);
  }

  lemma PendingDown(d: Draws, w: Blobs, c: Ident, l: nat, a: seq<Item>, m: seq<Item>, b: seq<Item>, next: Ident,
                    m': seq<Item>, h: nat, all: seq<Item>)
    requires l > 0 && Pending(d, w, c, l, a + m + b, a + m' + b, h, all)
    requires NoneTall(d, l, m) && NoneTall(d, l, m') && next !in w && next != ROOT
    ensures var i := |Seps(d, l, a)|;
      && i < |w[c].children| && w[c].children[i] in w
      && Pending(d, Moved(w, c, i, next), next, l - 1, LastSeg(d, l, a) + m + FirstSeg(d, l, b),
                 LastSeg(d, l, a) + m' + FirstSeg(d, l, b), h, all)
  {
    DescendAt(d, w, c, l, a, m, b, next, m');
  }

  lemma MovedView(blobs: Blobs, root: Node, c: Ident, cur: Node, i: nat, next: Ident, w: Blobs)
    requires ROOT !in blobs && next != ROOT
    requires w == blobs[ROOT := root] && (if c == ROOT then cur == root else c in blobs && blobs[c] == cur)
    requires cur.Internal? && i < |cur.children| && cur.children[i] in blobs && cur.children[i] != c
    ensures var k := cur.children[i];
      var cur' := cur.(children := cur.children[i := next]);
      var up := if c == ROOT then blobs else blobs[c := cur'];
      ((up - {k})[next := up[k]])[ROOT := if c == ROOT then cur' else root] == Moved(w, c, i, next)
  {
  }

  /** After n steps down there are n - 1 finished rounds and one that is still open. */
  ghost predicate Midway(before: Store<Node>, st: Store<Node>, n: nat, width: nat) {
    if n == 0 then RoundsBy(before, st, 0, width)
    else RoundsBy(before, st.(open := []), n - 1, width) && |st.open| == width
  }

  lemma MidwayStart(before: Store<Node>, width: nat)
    requires before.Quiet()
    ensures Midway(before, before, 0, width)
  {
  }

  lemma MidwayStep(before: Store<Node>, st: Store<Node>, st': Store<Node>, n: nat, width: nat)
    requires before.Quiet() && Midway(before, st, n, width)
    requires st'.rounds == if n == 0 then st.rounds else st.Finalize().rounds
    requires |st'.open| == width > 0
    ensures Midway(before, st', n + 1, width)
  {
  }

  lemma MidwayEnd(before: Store<Node>, st: Store<Node>, after: Store<Node>, n: nat, width: nat)
    requires before.Quiet() && Midway(before, st, n, width) && after.open == []
    requires if n == 0 then after.rounds == st.rounds else after.rounds == st.Finalize().rounds
    requires width > 0
    ensures RoundsBy(before, after, n, width)
  {
  }

  lemma RoundsConcat(before: Store<Node>, mid: Store<Node>, after: Store<Node>, n: nat, rest: nat, width: nat)
    requires RoundsBy(before, mid, n, width) && RoundsBy(mid, after, rest, width)
    ensures RoundsBy(before, after, n + rest, width)
  {
    assert after.rounds[..|mid.rounds|][..|before.rounds|] == after.rounds[..|before.rounds|];
    forall i | |before.rounds| <= i < |after.rounds| ensures |after.rounds[i]| == width {
      if i < |mid.rounds| {
        assert after.rounds[i] == after.rounds[..|mid.rounds|][i];
      }
    }
  }

  lemma RoundsSame(before: Store<Node>, before': Store<Node>, after: Store<Node>, n: nat, width: nat)
    requires before'.rounds == before.rounds && RoundsBy(before', after, n, width)
    ensures RoundsBy(before, after, n, width)
  {
  }

  lemma MidwayDone(before: Store<Node>, st: Store<Node>, mid: Store<Node>, after: Store<Node>, n: nat, rest: nat,
                   width: nat)
    requires Midway(before, st, n, width) && mid == st.Finalize()
    requires RoundsBy(mid, after, rest, width) && width > 0
    ensures RoundsBy(before, after, n + rest, width)
  {
    assert RoundsBy(before, mid, n, width);
    RoundsConcat(before, mid, after, n, rest, width);
  }

  lemma PendingDone(d: Draws, w: Blobs, c: Ident, l: nat, s: seq<Item>, h: nat, all: seq<Item>)
    requires Pending(d, w, c, l, s, s, h, all)
    ensures Whole(d, w, h, all)
  {
    FitsSelf(d, w, c, l, s);
  }

  /** A tree whose root names a missing child is no tree. */
  lemma LostIsBroken(d: Draws, w: Blobs, h: nat, all: seq<Item>)
    requires Lost(w)
    ensures !Whole(d, w, h, all)
  {
    if Whole(d, w, h, all) {
      var i :| 0 <= i < |w[ROOT].children| && w[ROOT].children[i] !in w;
      var cs := w[ROOT].children;
      RepAllLength(d, w, cs, h - 1, Segs(d, h, all));
      var segs := Segs(d, h, all);
      Divide(cs, i);
      Divide(segs, i);
      Around(d, w, ROOT, h, all, cs[..i], cs[i], cs[i + 1..], segs[..i], segs[i], segs[i + 1..]);
      assert false;
    }
  }

  lemma FitsSelf(d: Draws, w: Blobs, c: Ident, l: nat, s: seq<Item>)
    requires Rep(d, w, c, l, s)
    ensures Fits(d, w, Own(w, c, l), w, c, l, s)
  {
    RepFrame(d, w, w, c, l, s);
  }

  lemma FreshBound(s: set<Ident>) returns (n: Ident)
    ensures n !in s
    ensures forall id <- s :: id < n
  {
    if s == {} {
      n := 0;
    } else {
      var y :| y in s;
      var k := FreshBound(s - {y});
      n := if k > y then k else y + 1;
      assert s == (s - {y}) + {y};
    }
  }

  // ---------------------------------------------------------------- two halves in hand

  /** Whatever completes the two halves c and r of a split node completes the whole tree. */
  ghost predicate PendingTwo(d: Draws, w: Blobs, c: Ident, r: Ident, l: nat, a: seq<Item>, b: seq<Item>,
                             pre: seq<Ident>, k: Ident, post: seq<Ident>, h: nat, all: seq<Item>) {
    && Torn(d, w, c, r, l, a, b, pre, k, post)
    && ROOT !in TornOwn(w, c, r, l, pre, k, post)
    && forall w1 :: FitsTwo(d, w, TornOwn(w, c, r, l, pre, k, post), w1, c, r, l, a, b) ==> Whole(d, w1, h, all)
  }

  lemma RepShaped(d: Draws, w: Blobs, c: Ident, l: nat, s: seq<Item>)
    requires Rep(d, w, c, l, s)
    ensures Shaped(w[c])
  {
    if l > 0 {
      RepAllLength(d, w, w[c].children, l - 1, Segs(d, l, s));
    }
  }

  lemma TwoFromOne(d: Draws, w: Blobs, c: Ident, l: nat, a: seq<Item>, x: Item, b: seq<Item>, kNew: Ident,
                   rNew: Ident, j: nat, i: nat,
                   h: nat, all: seq<Item>)
    returns (pre': seq<Ident>, k': Ident, post': seq<Ident>)
    requires l > 0 && Pending(d, w, c, l, a + [] + b, a + [x] + b, h, all) && Tall(d, x.hash, l)
    requires kNew !in w && rNew !in w && kNew != rNew && ROOT != kNew && ROOT != rNew
    requires j == |Seps(d, l, a)| && i == |Seps(d, l - 1, LastSeg(d, l, a))|
    ensures c in w && w[c].Internal? && j <= |w[c].lhashes| && j <= |w[c].values| && j < |w[c].children|
    ensures var k := w[c].children[j];
      && k in w && k != c && k != ROOT && Shaped(w[k])
      && Shows(d, w[k], l - 1, LastSeg(d, l, a) + FirstSeg(d, l, b))
      && i <= |w[k].lhashes| && i <= |w[k].values| && (w[k].Internal? ==> i < |w[k].children|)
      && PendingTwo(d, Split(w, Wedged(w, c, j, x, kNew, rNew), k, kNew, rNew, i), kNew, rNew, l - 1,
                    LastSeg(d, l, a), FirstSeg(d, l, b), pre', k', post', h, all)
  {
    hide RepAll, OwnAll, Seps, Segs, Torn, TornOwn, FitsTwo, Fits;
    assert a + [] + b == a + b;
    TearIndex(d, w, c, l, a, b);
    PendingChild(d, w, c, l, a, [], b);
    assert LastSeg(d, l, a) + [] + FirstSeg(d, l, b) == LastSeg(d, l, a) + FirstSeg(d, l, b);
    RepShaped(d, w, w[c].children[j], l - 1, LastSeg(d, l, a) + FirstSeg(d, l, b));
    pre', k', post' := InsertStep(d, w, c, l, a, x, b, kNew, rNew, j, i);
  }

  lemma TwoFromTwo(d: Draws, w: Blobs, c: Ident, r: Ident, l: nat, a: seq<Item>, b: seq<Item>,
                   pre: seq<Ident>, k: Ident, post: seq<Ident>, kNew: Ident, rNew: Ident, i: nat, h: nat,
                   all: seq<Item>)
    returns (pre': seq<Ident>, k': Ident, post': seq<Ident>)
    requires l > 0 && PendingTwo(d, w, c, r, l, a, b, pre, k, post, h, all)
    requires kNew !in w && rNew !in w && kNew != rNew && ROOT != kNew && ROOT != rNew
    requires i == |Seps(d, l - 1, LastSeg(d, l, a))|
    ensures c in w && r in w && w[c].Internal? && w[r].Internal? && w[c].children == pre + [k]
            && w[r].children == [k] + post
    ensures |pre| == |Seps(d, l, a)| && c != r
    ensures k in w && k != c && k != r && k != ROOT && Shaped(w[k])
    ensures Shows(d, w[k], l - 1, LastSeg(d, l, a) + FirstSeg(d, l, b))
    ensures i <= |w[k].lhashes| && i <= |w[k].values| && (w[k].Internal? ==> i < |w[k].children|)
    ensures PendingTwo(d, Split(w, Parted(w, c, r, pre, k, post, kNew, rNew), k, kNew, rNew, i), kNew, rNew, l - 1,
                       LastSeg(d, l, a), FirstSeg(d, l, b), pre', k', post', h, all)
  {
    TornInStore(d, w, c, r, l, a, b, pre, k, post);
    RepShaped(d, w, k, l - 1, LastSeg(d, l, a) + FirstSeg(d, l, b));
    pre', k', post' := SplitStep(d, w, c, r, l, a, b, pre, k, post, kNew, rNew, i);
  }

  lemma TwoDone(d: Draws, w: Blobs, c: Ident, r: Ident, a: seq<Item>, b: seq<Item>,
                pre: seq<Ident>, k: Ident, post: seq<Ident>, h: nat, all: seq<Item>)
    requires PendingTwo(d, w, c, r, 0, a, b, pre, k, post, h, all)
    ensures Whole(d, w, h, all)
  {
    LeafSeps(d, a);
    LeafSeps(d, b);
    assert FitsTwo(d, w, {c, r}, w, c, r, 0, a, b);
  }

  lemma HalvesView(blobs: Blobs, root: Node, c: Ident, cur: Node, k: Ident, next: Ident, step: Ident, w: Blobs, i: nat)
    requires k in blobs && k in w && w[k] == blobs[k] && !w[k].Blank? && k != c && k != ROOT
    requires i <= |w[k].lhashes| && i <= |w[k].values| && (w[k].Internal? ==> i < |w[k].children|)
    requires c == ROOT ==> cur == root
    requires next != ROOT && step != ROOT && next != step
    ensures var up := if c == ROOT then blobs else blobs[c := cur];
      ((up - {k})[next := up[k]][step := Blank])[ROOT := root][next := LeftPart(w[k], i)][step := RightPart(w[k], i)] ==
      Split(w, blobs[ROOT := root][c := cur] - {k}, k, next, step, i)
  {
    hide LeftPart, RightPart;
  }

  /** Where the child between a and b is split. */
  lemma HalvesIndex(d: Draws, n: Node, l: nat, a: seq<Item>, b: seq<Item>, x: Hash)
    requires l > 0 && Shows(d, n, l - 1, LastSeg(d, l, a) + FirstSeg(d, l, b))
    requires Below(a, x) && Above(b, x)
    ensures BisectLeft(n.lhashes, x) == |Seps(d, l - 1, LastSeg(d, l, a))| <= |n.lhashes| == |n.values|
    ensures x !in n.lhashes
    ensures Shaped(n) ==> BisectLeft(LeftPart(n, BisectLeft(n.lhashes, x)).lhashes, x) == BisectLeft(n.lhashes, x)
    ensures Below(LastSeg(d, l, a), x) && Above(FirstSeg(d, l, b), x)
  {
    var a', b' := LastSeg(d, l, a), FirstSeg(d, l, b);
    StraddleDown(d, l, a, [], b, x);
    assert a' + [] + b' == a' + b';
    FindIn(d, l - 1, a', [], b', x);
    Present(d, n, l - 1, a', [], b', x);
    BisectAt(n.lhashes[..BisectLeft(n.lhashes, x)], BisectLeft(n.lhashes, x), x);
  }

  lemma Unused(st: Store<Node>, issued: set<Ident>, id: Ident)
    requires Sound(st, issued) && Pregen(st, issued, id)
    ensures id in issued && id !in st.blobs && id !in st.cached && id != ROOT
  {
  }

  lemma PartedView(tree: Blobs, w: Blobs, c: Ident, r: Ident, cur: Node, sib: Node, pre: seq<Ident>, k: Ident,
                   post: seq<Ident>, next: Ident, step: Ident)
    requires k != c && k != r && c != r && cur.Internal? && sib.Internal? && w == tree[c := cur][r := sib]
    ensures tree[r := sib.(children := [step] + post)][c := cur.(children := pre + [next])] - {k}
            == Parted(w, c, r, pre, k, post, next, step)
  {
  }

  lemma WedgedView(tree: Blobs, w: Blobs, c: Ident, i: nat, y: Item, next: Ident, step: Ident, cur: Node)
    requires c in w && c in tree && w[c].Internal? && i <= |w[c].lhashes| && i <= |w[c].values| && i < |w[c].children|
    requires tree[c := cur] == w[c := WithItem(w[c], i, y)]
    requires w[c].children[i] != c
    ensures cur.Internal? && cur.children == w[c].children
    ensures var k := w[c].children[i];
      var cs := cur.children[..i + 1] + [step] + cur.children[i + 1..];
      && cs[i] == k
      && tree[c := cur.(children := cs[i := next])] - {k} == Wedged(w, c, i, y, next, step)
  {
    assert tree[c := cur][c] == cur;
    SameElsewhere(tree, w, c, cur, WithItem(w[c], i, y));
    var cs := cur.children[..i + 1] + [step] + cur.children[i + 1..];
    assert cs[i := next] == cur.children[..i] + [next, step] + cur.children[i + 1..];
  }

  lemma SameElsewhere(tree: Blobs, w: Blobs, c: Ident, n: Node, n': Node)
    requires c in w && c in tree && tree[c := n] == w[c := n']
    ensures tree.Keys == w.Keys
    ensures forall z :: z in w && z != c ==> tree[z] == w[z]
  {
    forall z | z in w && z != c ensures z in tree && tree[z] == w[z] {
      assert tree[c := n][z] == w[c := n'][z];
    }
    forall z | z in tree && z != c ensures z in w {
      assert z in tree[c := n];
    }
  }

  lemma RootApart(st: Store<Node>, issued: set<Ident>)
    requires Sound(st, issued)
    ensures ROOT !in st.blobs
  {
  }

  /** The empty store. */
  lemma Begin(st: Store<Node>, issued: set<Ident>)
    requires st == Empty() && issued == {ROOT}
    ensures Sound(st, issued)
  {
  }

  lemma Covered(st: Store<Node>, issued: set<Ident>)
    requires Sound(st, issued)
    ensures st.blobs.Keys <= issued && ROOT in issued
  {
  }

  lemma CachedPresent(st: Store<Node>, issued: set<Ident>)
    requires Sound(st, issued)
    ensures st.cached <= st.blobs.Keys
  {
  }

  lemma Apart(st: Store<Node>, issued: set<Ident>, id: Ident)
    requires Sound(st, issued) && id in st.cached
    ensures id != ROOT && id in st.blobs
  {
  }

  lemma LeafDone(d: Draws, w: Blobs, c: Ident, a: seq<Item>, y: Item, b: seq<Item>, h: nat, all: seq<Item>)
    requires Pending(d, w, c, 0, a + [] + b, a + [y] + b, h, all)
    ensures c in w && !w[c].Blank? && |Seps(d, 0, a)| <= |w[c].lhashes| == |w[c].values|
    ensures Whole(d, w[c := WithItem(w[c], |Seps(d, 0, a)|, y)], h, all)
  {
    assert a + [] + b == a + b;
    InsertAtLeaf(d, w, c, a, y, b);
  }

  lemma ReplaceDone(d: Draws, w: Blobs, c: Ident, l: nat, a: seq<Item>, x: Item, b: seq<Item>, y: Item, i: nat,
                    h: nat, all: seq<Item>)
    requires Pending(d, w, c, l, a + [x] + b, a + [y] + b, h, all)
    requires Tall(d, x.hash, l) && y.hash == x.hash && i == |Seps(d, l, a)|
    ensures c in w && !w[c].Blank? && i < |w[c].values|
    ensures Whole(d, w[c := w[c].(values := w[c].values[i := y.value])], h, all)
  {
    ReplaceFits(d, w, c, l, a, x, b, y, i);
  }

  /** At its own level an item is in the node if it is anywhere. */
  lemma Land(d: Draws, n: Node, l: nat, a: seq<Item>, m: seq<Item>, b: seq<Item>, x: Hash)
    requires Straddle(a, m, b, x) && Shows(d, n, l, a + m + b) && Tall(d, x, l)
    ensures var i := BisectLeft(n.lhashes, x);
      && i == |Seps(d, l, a)| <= |n.lhashes| == |n.values|
      && (i < |n.lhashes| && n.lhashes[i] == x <==> m != [])
    ensures m != [] ==> m == [m[0]] && m[0].hash == x
    ensures Below(a, x) && Above(b, x)
  {
    FindIn(d, l, a, m, b, x);
  }

  /** Above its own level an item is under a child. */
  lemma TooTall(d: Draws, n: Node, l: nat, ht: nat, a: seq<Item>, m: seq<Item>, b: seq<Item>, x: Hash, m': seq<Item>)
    requires Straddle(a, m, b, x) && Only(m', x) && Shows(d, n, l, a + m + b)
    requires ht < l && !Tall(d, x, ht + 1)
    ensures BisectRight(n.lhashes, x) == |Seps(d, l, a)|
    ensures NoneTall(d, l, m) && NoneTall(d, l, m')
  {
    assert !Tall(d, x, l) by {
      var k: nat :| k < ht + 1 && d(x, k) != 0;
    }
    FindIn(d, l, a, m, b, x);
  }

  // ---------------------------------------------------------------- a merge in hand

  /** Whatever completes the node c, whose child k is to be merged with q, completes the whole tree. */
  ghost predicate PendingMerge(d: Draws, w: Blobs, c: Ident, l: nat, a: seq<Item>, b: seq<Item>,
                               pre: seq<Ident>, k: Ident, post: seq<Ident>, q: Ident, h: nat, all: seq<Item>) {
    && Unmerged(d, w, c, l, a, b, pre, k, post, q)
    && (c != ROOT ==> ROOT !in UnmergedOwn(w, c, l, pre, k, post, q))
    && forall w1 :: Fits(d, w, UnmergedOwn(w, c, l, pre, k, post, q), w1, c, l, a + b) ==> Whole(d, w1, h, all)
  }

  /** What is needed to know of the two nodes that are merged next. */
  ghost predicate Mergeable(w: Blobs, c: Ident, k: Ident, q: Ident) {
    && k in w && q in w && k != q && k != c && q != c && k != ROOT && q != ROOT
    && Shaped(w[k]) && Shaped(w[q]) && (w[k].Leaf? <==> w[q].Leaf?)
  }

  lemma MergeFromDelete(d: Draws, w: Blobs, c: Ident, l: nat, a: seq<Item>, x: Item, b: seq<Item>, j: nat, h: nat,
                        all: seq<Item>)
    requires l > 0 && Pending(d, w, c, l, a + [x] + b, a + [] + b, h, all) && Tall(d, x.hash, l) && j == |Seps(d, l, a)|
    ensures c in w && w[c].Internal? && j < |w[c].lhashes| && j < |w[c].values| && j + 1 < |w[c].children|
    ensures var cs := w[c].children;
      var w' := w[c := WithoutItem(w[c], j).(children := cs[..j + 1] + cs[j + 2..])];
      && PendingMerge(d, w', c, l, a, b, cs[..j], cs[j], cs[j + 2..], cs[j + 1], h, all)
  {
    hide Rep, Own, Unmerged, UnmergedOwn, Seps, Swap, Whole;
    assert a + [] + b == a + b;
    DeleteUnmerges(d, w, c, l, a, x, b, j);
    InOwn(d, w, c, l, a + [x] + b);
    var cs := w[c].children;
    var w' := w[c := WithoutItem(w[c], j).(children := cs[..j + 1] + cs[j + 2..])];
    forall w1 | Fits(d, w', Own(w, c, l), w1, c, l, a + b) ensures Whole(d, w1, h, all) {
      SwapTop(w, w', c, Own(w, c, l), w1, Own(w1, c, l));
      assert Fits(d, w, Own(w, c, l), w1, c, l, a + b);
    }
  }

  lemma InOwn(d: Draws, w: Blobs, c: Ident, l: nat, s: seq<Item>)
    requires Rep(d, w, c, l, s)
    ensures c in w && c in Own(w, c, l)
  {
  }

  lemma SwapTop(w: Blobs, w': Blobs, c: Ident, gone: set<Ident>, w1: Blobs, come: set<Ident>)
    requires c in w && c in gone && w'.Keys == w.Keys && (forall z <- w :: z != c ==> w'[z] == w[z])
    requires Swap(w', gone, w1, come)
    ensures Swap(w, gone, w1, come)
  {
  }

  lemma MergeFromMerge(d: Draws, w: Blobs, c: Ident, l: nat, a: seq<Item>, b: seq<Item>,
                       pre: seq<Ident>, k: Ident, post: seq<Ident>, q: Ident, kNew: Ident, h: nat, all: seq<Item>)
    returns (pre': seq<Ident>, k': Ident, post': seq<Ident>, q': Ident)
    requires l > 0 && PendingMerge(d, w, c, l, a, b, pre, k, post, q, h, all) && kNew !in w && kNew != ROOT
    ensures c in w && w[c].Internal? && w[c].children == pre + [k] + post
    ensures Mergeable(w, c, k, q)
    ensures l > 1 ==> w[k].Internal? && w[q].children[0] == q' && |pre'| == |w[k].lhashes|
    ensures PendingMerge(d, Merge(w, c, pre, k, post, q, kNew), kNew, l - 1, LastSeg(d, l, a), FirstSeg(d, l, b),
                         pre', k', post', q', h, all)
    ensures l == 1 ==> w[k].Leaf?
  {
    hide Rep, Own, Seps, Swap, Whole, Fits, Segs;
    UnmergedInStore(d, w, c, l, a, b, pre, k, post, q);
    RepShaped(d, w, k, l - 1, LastSeg(d, l, a));
    RepShaped(d, w, q, l - 1, FirstSeg(d, l, b));
    RepLeaf(d, w, k, l - 1, LastSeg(d, l, a));
    pre', k', post', q' := MergeStep(d, w, c, l, a, b, pre, k, post, q, kNew);
    MergeAtRoot(d, w, c, l, a, b, pre, k, post, q, h, all);
  }

  lemma RepLeaf(d: Draws, w: Blobs, c: Ident, l: nat, s: seq<Item>)
    requires Rep(d, w, c, l, s)
    ensures w[c].Leaf? <==> l == 0
  {
  }

  /** No node below c is the root. */
  lemma MergeAtRoot(d: Draws, w: Blobs, c: Ident, l: nat, a: seq<Item>, b: seq<Item>,
                    pre: seq<Ident>, k: Ident, post: seq<Ident>, q: Ident, h: nat, all: seq<Item>)
    requires l > 0 && PendingMerge(d, w, c, l, a, b, pre, k, post, q, h, all)
    ensures ROOT !in UnmergedOwn(w, c, l, pre, k, post, q) - {c}
    ensures k != ROOT && q != ROOT && k != q && k != c && q != c
  {
    UnmergedInStore(d, w, c, l, a, b, pre, k, post, q);
  }

  lemma MergeDone(d: Draws, w: Blobs, c: Ident, a: seq<Item>, b: seq<Item>,
                  pre: seq<Ident>, k: Ident, post: seq<Ident>, q: Ident, h: nat, all: seq<Item>)
    requires PendingMerge(d, w, c, 0, a, b, pre, k, post, q, h, all)
    ensures Whole(d, w, h, all)
  {
    LeafSeps(d, a + b);
    assert Fits(d, w, {c}, w, c, 0, a + b);
  }

  lemma LeafDeleteDone(d: Draws, w: Blobs, c: Ident, a: seq<Item>, x: Item, b: seq<Item>, h: nat, all: seq<Item>)
    requires Pending(d, w, c, 0, a + [x] + b, a + [] + b, h, all)
    ensures c in w && !w[c].Blank? && |Seps(d, 0, a)| < |w[c].lhashes| == |w[c].values|
    ensures Whole(d, w[c := WithoutItem(w[c], |Seps(d, 0, a)|)], h, all)
  {
    assert a + [] + b == a + b;
    DeleteAtLeaf(d, w, c, a, x, b);
  }

  lemma MergeView(blobs: Blobs, root: Node, c: Ident, cur: Node, k: Ident, q: Ident, next: Ident, q': Ident, m: Node)
    requires k in blobs && q in blobs && k != q && k != c && q != c && k != ROOT && q != ROOT
    requires c == ROOT ==> cur == root
    requires next != ROOT && q' != ROOT && next !in blobs && q' !in blobs && next != q' && next != c && q' != c
    ensures var up := if c == ROOT then blobs else blobs[c := cur];
      var got := (up - {k})[next := up[k]];
      var both := (got - {q})[q' := got[q]];
      (both[ROOT := root] - {q'})[next := m] == (blobs[ROOT := root][c := cur] - {k, q})[next := m]
  {
  }

  lemma MergedShape(n: Node, sib: Node)
    requires Shaped(n) && Shaped(sib) && (n.Leaf? <==> sib.Leaf?)
    ensures sib.Internal? ==> sib.children != []
    ensures Merged(n, sib).Internal? <==> n.Internal?
  {
  }

  /** A search that came to a leaf without finding anything changes nothing. */
  lemma AbsentDone(d: Draws, w: Blobs, c: Ident, a: seq<Item>, m: seq<Item>, b: seq<Item>, h: nat, items: seq<Item>,
                   all: seq<Item>)
    requires Pending(d, w, c, 0, a + m + b, a + [] + b, h, all) && m == []
    ensures Whole(d, w, h, all)
  {
    FitsSelf(d, w, c, 0, a + m + b);
  }
}
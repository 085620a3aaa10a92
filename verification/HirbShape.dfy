/** The shape a HIRB tree must have.

    An item's level in the tree is a function of its hash alone, so a height and a sorted list of
    items leave no choice at all: `Canon` is the only tree.  `Seps` are the items that sit in a
    node of level l, `Segs` the runs of items that hang below it, between those separators. */
module HirbShape {

  /** A label digest.  Digests all have the same length, so comparing them as byte strings is
      comparing them as big-endian numbers. */
  type Hash = nat

  /** Whatever the user stores. */
  type Value(!new, ==)

  /** The k-th number drawn from the generator seeded with a hash; draw 0 ranges over LeafB,
      the later ones over B. */
  type Draws = (Hash, nat) -> nat

  datatype Item = Item(hash: Hash, value: Value)

  datatype Tree = Tree(items: seq<Item>, kids: seq<Tree>)

  /** A hash is at least l levels tall when its first l draws are all zero. */
  ghost predicate Tall(d: Draws, h: Hash, l: nat) {
    forall k: nat :: k < l ==> d(h, k) == 0
  }

  ghost function Seps(d: Draws, l: nat, s: seq<Item>): seq<Item> {
    if s == [] then []
    else (if Tall(d, s[0].hash, l) then [s[0]] else []) + Seps(d, l, s[1..])
  }

  ghost function Segs(d: Draws, l: nat, s: seq<Item>): (r: seq<seq<Item>>)
    ensures |r| == |Seps(d, l, s)| + 1
  {
    if s == [] then [[]]
    else
      var rest := Segs(d, l, s[1..]);
      if Tall(d, s[0].hash, l) then [[]] + rest else [[s[0]] + rest[0]] + rest[1..]
  }

  /** The tree of height l that holds the items s. */
  ghost function Canon(d: Draws, l: nat, s: seq<Item>): Tree
    decreases l
  {
    if l == 0 then Tree(s, [])
    else
      var segs := Segs(d, l, s);
      Tree(Seps(d, l, s), seq(|segs|, i requires 0 <= i < |segs| => Canon(d, l - 1, segs[i])))
  }

  ghost function Hashes(s: seq<Item>): (r: seq<Hash>)
    ensures |r| == |s|
    ensures forall i :: 0 <= i < |s| ==> r[i] == s[i].hash
  {
    seq(|s|, i requires 0 <= i < |s| => s[i].hash)
  }

  ghost function Values(s: seq<Item>): (r: seq<Value>)
    ensures |r| == |s|
    ensures forall i :: 0 <= i < |s| ==> r[i] == s[i].value
  {
    seq(|s|, i requires 0 <= i < |s| => s[i].value)
  }

  ghost predicate Sorted(s: seq<Item>) {
    forall i, j :: 0 <= i < j < |s| ==> s[i].hash < s[j].hash
  }

  ghost predicate Below(s: seq<Item>, x: Hash) {
    forall i :: 0 <= i < |s| ==> s[i].hash < x
  }

  ghost predicate Above(s: seq<Item>, x: Hash) {
    forall i :: 0 <= i < |s| ==> x < s[i].hash
  }

  ghost predicate AtLeast(s: seq<Item>, x: Hash) {
    forall i :: 0 <= i < |s| ==> x <= s[i].hash
  }

  /** The items of a run are all at least `l` levels tall, or all shorter. */
  ghost predicate NoneTall(d: Draws, l: nat, s: seq<Item>) {
    forall i :: 0 <= i < |s| ==> !Tall(d, s[i].hash, l)
  }

  // ---------------------------------------------------------------- how runs concatenate

  lemma {:induction false} SepsConcat(d: Draws, l: nat, a: seq<Item>, b: seq<Item>)
    ensures Seps(d, l, a + b) == Seps(d, l, a) + Seps(d, l, b)
  {
    hide Tall;
    if a == [] {
      assert a + b == b;
    } else {
      var rest := a[1..];
      SepsConcat(d, l, rest, b);
      SepsCons(d, l, a[0], rest);
      SepsCons(d, l, a[0], rest + b);
      assert a == [a[0]] + rest && a + b == [a[0]] + (rest + b);
    }
  }

  lemma SepsCons(d: Draws, l: nat, x: Item, s: seq<Item>)
    ensures Seps(d, l, [x] + s) == (if Tall(d, x.hash, l) then [x] else []) + Seps(d, l, s)
  {
    assert ([x] + s)[1..] == s;
  }

  ghost function LastSeg(d: Draws, l: nat, s: seq<Item>): seq<Item> {
    Segs(d, l, s)[|Segs(d, l, s)| - 1]
  }

  ghost function FirstSeg(d: Draws, l: nat, s: seq<Item>): seq<Item> {
    Segs(d, l, s)[0]
  }

  /** Two lists of segments with the two that meet made one. */
  ghost function Glue(ra: seq<seq<Item>>, rb: seq<seq<Item>>): (r: seq<seq<Item>>)
    requires |ra| > 0 && |rb| > 0
    ensures |r| == |ra| + |rb| - 1
  {
    ra[..|ra| - 1] + [ra[|ra| - 1] + rb[0]] + rb[1..]
  }

  lemma GlueCons(y: seq<Item>, ra: seq<seq<Item>>, rb: seq<seq<Item>>)
    requires |ra| > 0 && |rb| > 0
    ensures Glue([y] + ra, rb) == [y] + Glue(ra, rb)
  {
    assert ([y] + ra)[..|ra|] == [y] + ra[..|ra| - 1];
  }

  lemma GluePush(y: Item, ra: seq<seq<Item>>, rb: seq<seq<Item>>)
    requires |ra| > 0 && |rb| > 0
    ensures Glue([[y] + ra[0]] + ra[1..], rb) == [[y] + Glue(ra, rb)[0]] + Glue(ra, rb)[1..]
  {
    var g := Glue(ra, rb);
    var ra' := [[y] + ra[0]] + ra[1..];
    if |ra| == 1 {
      assert ([y] + ra[0]) + rb[0] == [y] + (ra[0] + rb[0]);
      assert g == [ra[0] + rb[0]] + rb[1..];
      assert Glue(ra', rb) == [([y] + ra[0]) + rb[0]] + rb[1..];
    } else {
      assert ra == [ra[0]] + ra[1..];
      GlueCons(ra[0], ra[1..], rb);
      GlueCons([y] + ra[0], ra[1..], rb);
    }
  }

  /** Putting two runs of items side by side keeps every segment but the two that meet, which
      become one. */
  lemma {:induction false} SegsConcat(d: Draws, l: nat, a: seq<Item>, b: seq<Item>)
    ensures Segs(d, l, a + b) == Glue(Segs(d, l, a), Segs(d, l, b))
  {
    if a == [] {
      assert a + b == b;
      assert [] + Segs(d, l, b)[0] == Segs(d, l, b)[0];
    } else {
      SegsConcat(d, l, a[1..], b);
      assert (a + b)[1..] == a[1..] + b;
      if Tall(d, a[0].hash, l) {
        GlueCons([], Segs(d, l, a[1..]), Segs(d, l, b));
      } else {
        GluePush(a[0], Segs(d, l, a[1..]), Segs(d, l, b));
      }
    }
  }

  /** A separator between two runs leaves both runs' segments as they are. */
  lemma {:induction false} SegsAround(d: Draws, l: nat, a: seq<Item>, x: Item, b: seq<Item>)
    requires Tall(d, x.hash, l)
    ensures Segs(d, l, a + [x] + b) == Segs(d, l, a) + Segs(d, l, b)
    ensures Seps(d, l, a + [x] + b) == Seps(d, l, a) + [x] + Seps(d, l, b)
  {
    hide Tall;
    var xb := [x] + b;
    assert xb[1..] == b;
    assert a + [x] + b == a + xb;
    SegsConcat(d, l, a, xb);
    SepsConcat(d, l, a, xb);
    assert LastSeg(d, l, a) + [] == LastSeg(d, l, a);
    assert Segs(d, l, xb) == [[]] + Segs(d, l, b);
  }

  /** Items that are not separators join the two segments they fall between. */
  lemma {:induction false} SegsWithin(d: Draws, l: nat, a: seq<Item>, m: seq<Item>, b: seq<Item>)
    requires NoneTall(d, l, m)
    ensures Seps(d, l, a + m + b) == Seps(d, l, a) + Seps(d, l, b)
    ensures Segs(d, l, a + m + b) ==
            Front(d, l, a) + [LastSeg(d, l, a) + m + FirstSeg(d, l, b)] + Segs(d, l, b)[1..]
  {
    NoSeps(d, l, m);
    SepsConcat(d, l, a, m);
    SepsConcat(d, l, a + m, b);
    SegsConcat(d, l, a, m);
    SegsConcat(d, l, a + m, b);
    assert Glue(Segs(d, l, a), [m]) == Front(d, l, a) + [LastSeg(d, l, a) + m];
  }

  /** All segments of a run but the last. */
  ghost function Front(d: Draws, l: nat, s: seq<Item>): (r: seq<seq<Item>>)
    ensures |r| == |Seps(d, l, s)|
  {
    Segs(d, l, s)[..|Seps(d, l, s)|]
  }

  /** A separator at the end of a run closes its last segment. */
  lemma SegsSnoc(d: Draws, l: nat, s: seq<Item>, x: Item)
    requires Tall(d, x.hash, l)
    ensures Seps(d, l, s + [x]) == Seps(d, l, s) + [x]
    ensures Segs(d, l, s + [x]) == Segs(d, l, s) + [[]]
    ensures Front(d, l, s + [x]) == Segs(d, l, s) && LastSeg(d, l, s + [x]) == []
  {
    hide Tall;
    assert s + [x] == s + [x] + [];
    SegsAround(d, l, s, x, []);
  }

  lemma SegsMeet(d: Draws, l: nat, a: seq<Item>, b: seq<Item>)
    ensures Segs(d, l, a + b) == Front(d, l, a) + [LastSeg(d, l, a) + FirstSeg(d, l, b)] + Segs(d, l, b)[1..]
  {
    SegsConcat(d, l, a, b);
  }

  lemma FrontLast(d: Draws, l: nat, s: seq<Item>)
    ensures Segs(d, l, s) == Front(d, l, s) + [LastSeg(d, l, s)]
  {
    var segs := Segs(d, l, s);
    var n := |segs| - 1;
    assert segs == segs[..n] + [segs[n]];
  }

  // ---------------------------------------------------------------- where items end up

  lemma {:induction false} SepsMember(d: Draws, l: nat, s: seq<Item>, x: Item)
    ensures x in Seps(d, l, s) <==> x in s && Tall(d, x.hash, l)
  {
    if s != [] {
      SepsMember(d, l, s[1..], x);
      assert s == [s[0]] + s[1..];
    }
  }

  lemma {:induction false} SepsSorted(d: Draws, l: nat, s: seq<Item>)
    requires Sorted(s)
    ensures Sorted(Seps(d, l, s))
  {
    if s != [] {
      SepsSorted(d, l, s[1..]);
      forall i | 0 <= i < |Seps(d, l, s[1..])| ensures s[0].hash < Seps(d, l, s[1..])[i].hash {
        SepsMember(d, l, s[1..], Seps(d, l, s[1..])[i]);
      }
    }
  }

  lemma {:induction false} LeafSeps(d: Draws, s: seq<Item>)
    ensures Seps(d, 0, s) == s
  {
    if s != [] {
      LeafSeps(d, s[1..]);
    }
  }

  lemma LastSegStep(d: Draws, l: nat, s: seq<Item>)
    requires s != []
    ensures LastSeg(d, l, s) ==
            (if !Tall(d, s[0].hash, l) && |Segs(d, l, s[1..])| == 1 then [s[0]] else []) + LastSeg(d, l, s[1..])
  {
  }

  lemma {:induction false} LastSegSuffix(d: Draws, l: nat, s: seq<Item>)
    ensures |LastSeg(d, l, s)| <= |s| && LastSeg(d, l, s) == s[|s| - |LastSeg(d, l, s)|..]
    ensures |Segs(d, l, s)| == 1 ==> LastSeg(d, l, s) == s
  {
    if s != [] {
      LastSegSuffix(d, l, s[1..]);
      LastSegMore(d, l, s);
    }
  }

  lemma LastSegMore(d: Draws, l: nat, s: seq<Item>)
    requires s != []
    requires var t := LastSeg(d, l, s[1..]); |t| <= |s| - 1 && t == s[1..][|s| - 1 - |t|..]
    requires |Segs(d, l, s[1..])| == 1 ==> LastSeg(d, l, s[1..]) == s[1..]
    ensures |LastSeg(d, l, s)| <= |s| && LastSeg(d, l, s) == s[|s| - |LastSeg(d, l, s)|..]
    ensures |Segs(d, l, s)| == 1 ==> LastSeg(d, l, s) == s
  {
    LastSegStep(d, l, s);
    SuffixStep(s, LastSeg(d, l, s[1..]), LastSeg(d, l, s));
  }

  lemma SuffixStep(s: seq<Item>, t: seq<Item>, u: seq<Item>)
    requires s != [] && |t| < |s| && t == s[1..][|s| - 1 - |t|..]
    requires u == t || (t == s[1..] && u == [s[0]] + t)
    ensures |u| <= |s| && u == s[|s| - |u|..]
  {
  }

  lemma {:induction false} FirstSegPrefix(d: Draws, l: nat, s: seq<Item>)
    ensures FirstSeg(d, l, s) <= s
  {
    if s != [] {
      FirstSegPrefix(d, l, s[1..]);
    }
  }

  /** With no separator there is one segment, the run itself. */
  lemma {:induction false} NoSeps(d: Draws, l: nat, s: seq<Item>)
    requires NoneTall(d, l, s)
    ensures Seps(d, l, s) == [] && Segs(d, l, s) == [s]
  {
    if s != [] {
      NoSeps(d, l, s[1..]);
      assert [s[0]] + s[1..] == s;
    }
  }

  // ---------------------------------------------------------------- sorted runs

  lemma HeadIn(t: seq<Item>)
    ensures t == [] || t[0] in t
  {
  }

  /** A sorted run is determined by its set of items. */
  lemma {:induction false} SortedUnique(s: seq<Item>, t: seq<Item>)
    requires Sorted(s) && Sorted(t)
    requires forall x :: x in s <==> x in t
    ensures s == t
  {
    if s == [] {
      HeadIn(t);
    } else {
      assert s[0] in t;
      assert t[0] in s;
      var i :| 0 <= i < |t| && t[i] == s[0];
      var j :| 0 <= j < |s| && s[j] == t[0];
      assert s[0] == t[0];
      var u := s[0];
      assert s == [u] + s[1..] && t == [u] + t[1..];
      assert u !in s[1..] && u !in t[1..];
      forall x ensures x in s[1..] <==> x in t[1..] {
        assert x in s <==> x == u || x in s[1..];
        assert x in t <==> x == u || x in t[1..];
      }
      SortedUnique(s[1..], t[1..]);
    }
  }

  /** Where a hash falls in a sorted run. */
  ghost function Cut(s: seq<Item>, x: Hash): (r: nat)
    ensures r <= |s|
    ensures Below(s[..r], x)
    ensures Sorted(s) ==> AtLeast(s[r..], x)
  {
    if s == [] || s[0].hash >= x then 0 else 1 + Cut(s[1..], x)
  }
}

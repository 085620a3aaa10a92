/** Nodes of the HIRB while they are being worked on, and searching in them. */
module HirbNodes {
  import opened Common
  import opened HirbShape
  import opened BlobMap
  import opened HirbStore
  import opened HirbSplit
  import opened HirbMerge

  /** The index before which every hash is smaller than x and from which on none is. */
  function BisectLeft(hs: seq<Hash>, x: Hash): (i: nat)
    ensures i <= |hs|
    ensures forall j :: 0 <= j < i ==> hs[j] < x
    ensures i < |hs| ==> x <= hs[i]
  {
    if hs == [] || x <= hs[0] then 0 else 1 + BisectLeft(hs[1..], x)
  }

  /** The same with hashes equal to x counted as smaller. */
  function BisectRight(hs: seq<Hash>, x: Hash): (i: nat)
    ensures i <= |hs|
    ensures forall j :: 0 <= j < i ==> hs[j] <= x
    ensures i < |hs| ==> x < hs[i]
  {
    if hs == [] || x < hs[0] then 0 else 1 + BisectRight(hs[1..], x)
  }

  /** A leaf or an internal node; its lists change in place. */
  class HirbNode {
    const internal: bool
    var lhashes: seq<Hash>
    var values: seq<Value>
    var children: seq<Ident>

    /** The node as it would be pickled. */
    function Val(): (n: Node)
      reads this
      ensures !n.Blank? && (n.Internal? <==> internal)
    {
      if internal then Internal(lhashes, values, children) else Leaf(lhashes, values)
    }

    /** The list lengths belong together. */
    ghost predicate Shaped()
      reads this
    {
      |values| == |lhashes| && (internal ==> |children| == |lhashes| + 1)
    }

    constructor MakeLeaf()
      ensures Val() == Leaf([], [])
    {
      internal, lhashes, values, children := false, [], [], [];
    }

    constructor MakeInternal(child: Option<Ident>)
      ensures Val() == Internal([], [], if child.Some? then [child.value] else [])
    {
      internal, lhashes, values := true, [], [];
      children := if child.Some? then [child.value] else [];
    }

    constructor Unpickle(n: Node)
      requires !n.Blank?
      ensures Val() == n
    {
      internal, lhashes, values := n.Internal?, n.lhashes, n.values;
      children := if n.Internal? then n.children else [];
    }

    /** Splits this node at the wedge, which neither half keeps. */
    method Split(wedge: Hash) returns (sibling: HirbNode)
      requires Shaped()
      modifies this
      ensures fresh(sibling)
      ensures var i := BisectLeft(old(lhashes), wedge);
        var j := if i < |old(lhashes)| && old(lhashes)[i] == wedge then i + 1 else i;
        && Val() == LeftPart(old(Val()), i)
        && sibling.Val() == RightPart(old(Val()), j)
    {
      hide BisectLeft;
      var index := BisectLeft(lhashes, wedge);
      var copyFrom := if index < |lhashes| && lhashes[index] == wedge then index + 1 else index;
      if internal {
        sibling := new HirbNode.MakeInternal(Some(children[copyFrom]));
        sibling.lhashes := sibling.lhashes + lhashes[copyFrom..];
        sibling.values := sibling.values + values[copyFrom..];
        sibling.children := sibling.children + children[copyFrom + 1..];
        children := children[..index + 1];
      } else {
        sibling := new HirbNode.MakeLeaf();
        sibling.lhashes := sibling.lhashes + lhashes[copyFrom..];
        sibling.values := sibling.values + values[copyFrom..];
      }
      lhashes := lhashes[..index];
      values := values[..index];
    }

    /** Takes in the sibling; an internal node hands back the sibling's first child. */
    method Merge(sibling: HirbNode) returns (left: Option<Ident>)
      requires sibling != this && sibling.internal == internal
      requires sibling.internal ==> sibling.children != []
      modifies this
      ensures Val() == Merged(old(Val()), sibling.Val())
      ensures left == if internal then Some(sibling.children[0]) else None
    {
      lhashes := lhashes + sibling.lhashes;
      values := values + sibling.values;
      if internal {
        children := children + sibling.children[1..];
        left := Some(sibling.children[0]);
      } else {
        left := None;
      }
    }
  }

  // ---------------------------------------------------------------- searching a node

  /** At most one item, with the hash x. */
  ghost predicate Only(m: seq<Item>, x: Hash) {
    m == [] || (|m| == 1 && m[0].hash == x)
  }

  /** The items of a subtree around the hash x. */
  ghost predicate Straddle(a: seq<Item>, m: seq<Item>, b: seq<Item>, x: Hash) {
    Below(a, x) && Only(m, x) && Above(b, x)
  }

  lemma {:induction false} BisectAt(hs: seq<Hash>, i: nat, x: Hash)
    requires i <= |hs|
    requires forall j :: 0 <= j < i ==> hs[j] < x
    requires i < |hs| ==> x <= hs[i]
    ensures BisectLeft(hs, x) == i
    ensures i == |hs| || x < hs[i] ==> BisectRight(hs, x) == i
  {
    if i > 0 {
      BisectAt(hs[1..], i - 1, x);
    }
  }

  lemma SepsBelow(d: Draws, l: nat, s: seq<Item>, x: Hash)
    ensures Below(s, x) ==> Below(Seps(d, l, s), x)
    ensures Above(s, x) ==> Above(Seps(d, l, s), x)
  {
    forall i | 0 <= i < |Seps(d, l, s)| ensures Seps(d, l, s)[i] in s {
      SepsMember(d, l, s, Seps(d, l, s)[i]);
    }
  }

  /** Bisection finds the item where its level says it is, and otherwise the child it is under. */
  lemma FindIn(d: Draws, l: nat, a: seq<Item>, m: seq<Item>, b: seq<Item>, x: Hash)
    requires Straddle(a, m, b, x)
    ensures var hs, i := Hashes(Seps(d, l, a + m + b)), |Seps(d, l, a)|;
      && BisectLeft(hs, x) == i
      && (i < |hs| && hs[i] == x <==> m != [] && Tall(d, x, l))
      && (i < |hs| && hs[i] == x ==> Values(Seps(d, l, a + m + b))[i] == m[0].value)
      && (NoneTall(d, l, m) ==> BisectRight(hs, x) == i)
  {
    SepsBelow(d, l, a, x);
    SepsBelow(d, l, b, x);
    SepsConcat(d, l, a, m);
    SepsConcat(d, l, a + m, b);
    assert m != [] ==> m[1..] == [];
    BisectAt(Hashes(Seps(d, l, a + m + b)), |Seps(d, l, a)|, x);
  }

  /** The same around one step further down. */
  lemma StraddleDown(d: Draws, l: nat, a: seq<Item>, m: seq<Item>, b: seq<Item>, x: Hash)
    requires Straddle(a, m, b, x)
    ensures Straddle(LastSeg(d, l, a), m, FirstSeg(d, l, b), x)
  {
    LastSegSuffix(d, l, a);
    FirstSegPrefix(d, l, b);
  }

  /** A sorted run around the hash x. */
  lemma CutAround(s: seq<Item>, x: Hash) returns (a: seq<Item>, m: seq<Item>, b: seq<Item>)
    requires Sorted(s)
    ensures s == a + m + b && Straddle(a, m, b, x)
  {
    var i := Cut(s, x);
    a := s[..i];
    if i < |s| && s[i].hash == x {
      m, b := [s[i]], s[i + 1..];
    } else {
      m, b := [], s[i..];
    }
  }

  // ---------------------------------------------------------------- the dictionary

  /** A run of items as a dictionary. */
  ghost function AsMap(s: seq<Item>): map<Hash, Value> {
    if s == [] then map[] else map[s[0].hash := s[0].value] + AsMap(s[1..])
  }

  lemma {:induction false} AsMapConcat(a: seq<Item>, b: seq<Item>)
    ensures AsMap(a + b) == AsMap(a) + AsMap(b)
  {
    if a == [] {
      assert a + b == b;
    } else {
      AsMapConcat(a[1..], b);
      assert (a + b)[1..] == a[1..] + b;
    }
  }

  /** In a sorted run every item is found under its hash. */
  lemma {:induction false} AsMapHas(s: seq<Item>, h: Hash)
    ensures h in AsMap(s) <==> exists i :: 0 <= i < |s| && s[i].hash == h
    ensures Sorted(s) ==> forall i :: 0 <= i < |s| && s[i].hash == h ==> AsMap(s)[h] == s[i].value
  {
    if s != [] {
      AsMapHas(s[1..], h);
      assert forall i :: 1 <= i < |s| ==> s[i] == s[1..][i - 1];
      if h in AsMap(s[1..]) {
        var i :| 0 <= i < |s[1..]| && s[1..][i].hash == h;
        assert s[i + 1].hash == h;
      }
    }
  }

  lemma {:induction false} AsMapSize(s: seq<Item>)
    requires Sorted(s)
    ensures |AsMap(s)| == |s|
  {
    if s != [] {
      AsMapSize(s[1..]);
      AsMapHas(s[1..], s[0].hash);
      assert AsMap(s).Keys == {s[0].hash} + AsMap(s[1..]).Keys;
      assert s[0].hash !in AsMap(s[1..]);
      assert |AsMap(s).Keys| == 1 + |AsMap(s[1..]).Keys|;
    }
  }

  lemma AsMapOne(m: seq<Item>, x: Hash)
    requires |m| == 1 && m[0].hash == x
    ensures AsMap(m) == map[x := m[0].value]
  {
    assert m[1..] == [];
  }

  lemma AsMapAround(a: seq<Item>, m: seq<Item>, b: seq<Item>, x: Hash)
    requires Straddle(a, m, b, x)
    ensures x !in AsMap(a + b)
    ensures AsMap(a + m + b) == if m == [] then AsMap(a + b) else AsMap(a + b)[x := m[0].value]
  {
    AsMapConcat(a, b);
    AsMapHas(a, x);
    AsMapHas(b, x);
    hide Sorted;
    if m == [] {
      assert a + m == a;
    } else {
      AsMapConcat(a, m);
      AsMapConcat(a + m, b);
      AsMapOne(m, x);
      MapAround(AsMap(a), AsMap(b), x, m[0].value);
    }
  }

  /** Replacing what is there about x in a sorted run changes the dictionary at x only. */
  lemma AsMapChange(a: seq<Item>, m: seq<Item>, m': seq<Item>, b: seq<Item>, x: Hash)
    requires Straddle(a, m, b, x) && Only(m', x)
    ensures AsMap(a + m' + b) == if m' == [] then AsMap(a + m + b) - {x} else AsMap(a + m + b)[x := m'[0].value]
    ensures m != [] <==> x in AsMap(a + m + b)
    ensures m != [] ==> AsMap(a + m + b)[x] == m[0].value
  {
    AsMapAround(a, m, b, x);
    AsMapAround(a, m', b, x);
    if m != [] {
      MapReset(AsMap(a + b), x, m[0].value, if m' == [] then m[0].value else m'[0].value);
    }
  }

  lemma MapReset(base: map<Hash, Value>, x: Hash, v: Value, v': Value)
    requires x !in base
    ensures base[x := v] - {x} == base == base - {x}
    ensures base[x := v][x := v'] == base[x := v']
  {
  }

  lemma MapAround(before: map<Hash, Value>, after: map<Hash, Value>, x: Hash, v: Value)
    requires x !in before && x !in after
    ensures before + map[x := v] + after == (before + after)[x := v]
  {
  }

  lemma SortedChange(a: seq<Item>, m: seq<Item>, m': seq<Item>, b: seq<Item>, x: Hash)
    requires Straddle(a, m, b, x) && Only(m', x) && Sorted(a + m + b)
    ensures Sorted(a + m' + b)
  {
    SortedParts(a, m, b);
    SortedJoin(a, m', b, x);
  }

  lemma SortedParts(a: seq<Item>, m: seq<Item>, b: seq<Item>)
    requires Sorted(a + m + b)
    ensures Sorted(a) && Sorted(b)
  {
    var s := a + m + b;
    assert forall i :: 0 <= i < |a| ==> s[i] == a[i];
    assert forall j :: 0 <= j < |b| ==> s[|a| + |m| + j] == b[j];
  }

  lemma SortedJoin(a: seq<Item>, m: seq<Item>, b: seq<Item>, x: Hash)
    requires Straddle(a, m, b, x) && Sorted(a) && Sorted(b)
    ensures Sorted(a + m + b)
  {
    var am := a + m;
    assert Sorted(am) && Below(am, x + 1);
    var s := am + b;
    forall i, j | 0 <= i < j < |s| ensures s[i].hash < s[j].hash {
    }
  }
}

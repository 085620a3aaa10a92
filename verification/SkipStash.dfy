/** The stash as a skip list. */
module SkipStashes {

  import opened Common
  import opened Bits
  import opened VoramCodec
  import opened SkipRows

  class SkipNode {
    const key: nat
    var value: Bytes
    const links: array<SkipNode?>

    constructor (key: nat, value: Bytes, height: nat)
      ensures this.key == key && this.value == value
      ensures fresh(links) && links.Length == height
    {
      this.key, this.value := key, value;
      links := new SkipNode?[height](_ => null);
    }
  }

  // ---------------------------------------------------------------- rows

  ghost function Lens(heads: nat, nodes: seq<SkipNode>): (lens: seq<nat>)
    ensures |lens| == |nodes| + 1 && lens[0] == heads
    ensures forall j :: 0 < j < |lens| ==> lens[j] == nodes[j - 1].links.Length
  {
    seq(|nodes| + 1, j requires 0 <= j <= |nodes| => if j == 0 then heads else nodes[j - 1].links.Length)
  }

  /** The node that a link of row r at level l leads to. */
  ghost function Target(heads: nat, nodes: seq<SkipNode>, r: nat, l: nat): SkipNode?
    requires r <= |nodes|
  {
    var s := Next(Lens(heads, nodes), r, l);
    if s <= |nodes| then nodes[s - 1] else null
  }

  ghost function RowOf(heads: array<SkipNode?>, nodes: seq<SkipNode>, r: nat): array<SkipNode?>
    requires r <= |nodes|
  {
    if r == 0 then heads else nodes[r - 1].links
  }

  ghost predicate Sorted(nodes: seq<SkipNode>) {
    forall i, j :: 0 <= i < j < |nodes| ==> nodes[i].key < nodes[j].key
  }

  /** No two rows share their links. */
  ghost predicate Apart(heads: array<SkipNode?>, nodes: seq<SkipNode>) {
    forall r, s :: 0 <= r < s <= |nodes| ==> RowOf(heads, nodes, r) != RowOf(heads, nodes, s)
  }

  /** Rows have as many links as their keys' heights say, and the head no fewer. */
  ghost predicate Tall(width: nat, heads: nat, nodes: seq<SkipNode>) {
    && heads > 0
    && forall n <- nodes :: n.key < Pow2(width) && n.links.Length == Height(n.key, width) + 1 <= heads
  }

  /** What a link is while a new node `x` is put in at row q, with the levels above `lev` done. */
  ghost function Inserting(heads: nat, nodes: seq<SkipNode>, q: nat, x: SkipNode, lev: int, r: nat, l: nat): SkipNode?
    requires r <= |nodes|
  {
    if lev < l < x.links.Length && r < q <= Next(Lens(heads, nodes), r, l) then x else Target(heads, nodes, r, l)
  }

  /** What a link is while row q is taken out, with the levels above `lev` done. */
  ghost function Removing(heads: nat, nodes: seq<SkipNode>, q: nat, lev: int, r: nat, l: nat): SkipNode?
    requires r <= |nodes| && q <= |nodes|
  {
    var row := if lev < l && r < q == Next(Lens(heads, nodes), r, l) then q else r;
    Target(heads, nodes, row, l)
  }

  lemma LensInsert(heads: nat, nodes: seq<SkipNode>, q: nat, x: SkipNode)
    requires 0 < q <= |nodes| + 1
    ensures Lens(heads, Insert(nodes, q - 1, x)) == Insert<nat>(Lens(heads, nodes), q, x.links.Length)
  {
    var nodes' := Insert(nodes, q - 1, x);
    InsertAt(nodes, q - 1, x);
    InsertAt<nat>(Lens(heads, nodes), q, x.links.Length);
    hide Insert, Remove;
    forall j | 0 <= j <= |nodes'|
      ensures Lens(heads, nodes')[j] == Insert<nat>(Lens(heads, nodes), q, x.links.Length)[j]
    {
    }
  }

  /** With all levels done, the links are those of the list with the new node. */
  lemma TargetInsert(heads: nat, nodes: seq<SkipNode>, q: nat, x: SkipNode, r: nat, l: nat)
    requires 0 < q <= |nodes| + 1 && r <= |nodes|
    ensures Target(heads, Insert(nodes, q - 1, x), Up(r, q), l) == Inserting(heads, nodes, q, x, -1, r, l)
  {
    hide Insert, Remove, Lens;
    LensInsert(heads, nodes, q, x);
    NextInsert(Lens(heads, nodes), q, x.links.Length, r, l);
    var s := Next(Lens(heads, nodes), r, l);
    InsertNode(nodes, q, x, s);
  }

  lemma InsertNode(nodes: seq<SkipNode>, q: nat, x: SkipNode, s: nat)
    requires 0 < q <= |nodes| + 1 && 0 < s
    ensures |Insert(nodes, q - 1, x)| == |nodes| + 1
    ensures Insert(nodes, q - 1, x)[q - 1] == x
    ensures s <= |nodes| ==> Insert(nodes, q - 1, x)[Up(s, q) - 1] == nodes[s - 1]
  {
  }

  lemma TargetNew(heads: nat, nodes: seq<SkipNode>, q: nat, x: SkipNode, p: nat, l: nat)
    requires p < q <= |nodes| + 1 && Next(Lens(heads, nodes), p, l) >= q
    ensures Target(heads, Insert(nodes, q - 1, x), q, l) == Target(heads, nodes, p, l)
  {
    hide Insert, Remove, Lens;
    LensInsert(heads, nodes, q, x);
    NextInserted(Lens(heads, nodes), q, x.links.Length, p, l);
    InsertNode(nodes, q, x, Next(Lens(heads, nodes), p, l));
  }

  lemma RemoveInsert(nodes: seq<SkipNode>, q: nat)
    requires 0 < q <= |nodes|
    ensures |Remove(nodes, q - 1)| == |nodes| - 1 && Insert(Remove(nodes, q - 1), q - 1, nodes[q - 1]) == nodes
  {
  }

  /** With all levels done, the links are those of the list without the node. */
  lemma TargetRemove(heads: nat, nodes: seq<SkipNode>, q: nat, r: nat, l: nat)
    requires 0 < q <= |nodes| && r < |nodes|
    ensures Target(heads, Remove(nodes, q - 1), r, l) == Removing(heads, nodes, q, -1, Up(r, q), l)
  {
    hide Insert, Remove, Lens;
    var x := nodes[q - 1];
    var rest := Remove(nodes, q - 1);
    RemoveInsert(nodes, q);
    TargetInsert(heads, rest, q, x, r, l);
    LensInsert(heads, rest, q, x);
    NextInsert(Lens(heads, rest), q, x.links.Length, r, l);
    var s := Next(Lens(heads, rest), r, l);
    if r < q <= s {
      TargetNew(heads, rest, q, x, r, l);
    }
  }

  /** Only one row with a level is right before row q there. */
  lemma OneBefore(lens: seq<nat>, q: nat, p: nat, r: nat, l: nat)
    requires p < q <= |lens| && lens[p] > l && Next(lens, p, l) >= q
    requires r < q && lens[r] > l && Next(lens, r, l) >= q
    ensures r == p
  {
  }

  // ---------------------------------------------------------------- values

  /** The nodes hold these values under these keys. */
  ghost predicate Stores(nodes: seq<SkipNode>, contents: map<nat, Bytes>)
    reads nodes
  {
    && (forall n <- nodes :: n.key in contents && n.value == contents[n.key])
    && (forall k <- contents :: exists n <- nodes :: n.key == k)
  }

  lemma StoresInsert(nodes: seq<SkipNode>, q: nat, x: SkipNode, contents: map<nat, Bytes>)
    requires 0 < q <= |nodes| + 1 && Stores(nodes, contents) && x.key !in contents
    ensures Stores(Insert(nodes, q - 1, x), contents[x.key := x.value])
    ensures forall y :: y in Insert(nodes, q - 1, x) <==> y in nodes || y == x
  {
    InsertIn(nodes, q - 1, x);
    hide Insert;
    assert forall n <- nodes :: n in Insert(nodes, q - 1, x);
  }

  lemma StoresNot(nodes: seq<SkipNode>, contents: map<nat, Bytes>, key: nat)
    requires Stores(nodes, contents)
    ensures key in contents <==> exists n <- nodes :: n.key == key
  {
  }

  // ---------------------------------------------------------------- links in the heap

  ghost function LinksOf(nodes: seq<SkipNode>): set<array<SkipNode?>> {
    set n <- nodes :: n.links
  }

  ghost predicate Woven(heads: array<SkipNode?>, nodes: seq<SkipNode>)
    reads heads, LinksOf(nodes)
  {
    forall r, l :: 0 <= r <= |nodes| && 0 <= l < RowOf(heads, nodes, r).Length ==>
      RowOf(heads, nodes, r)[l] == Target(heads.Length, nodes, r, l)
  }

  ghost predicate PartInserted(heads: array<SkipNode?>, nodes: seq<SkipNode>, q: nat, x: SkipNode, lev: int)
    reads heads, LinksOf(nodes)
  {
    forall r, l :: 0 <= r <= |nodes| && 0 <= l < RowOf(heads, nodes, r).Length ==>
      RowOf(heads, nodes, r)[l] == Inserting(heads.Length, nodes, q, x, lev, r, l)
  }

  ghost predicate PartRemoved(heads: array<SkipNode?>, nodes: seq<SkipNode>, q: nat, lev: int)
    requires q <= |nodes|
    reads heads, LinksOf(nodes)
  {
    forall r, l :: 0 <= r <= |nodes| && 0 <= l < RowOf(heads, nodes, r).Length ==>
      RowOf(heads, nodes, r)[l] == Removing(heads.Length, nodes, q, lev, r, l)
  }

  lemma RowInFrame(heads: array<SkipNode?>, nodes: seq<SkipNode>, r: nat)
    requires r <= |nodes|
    ensures r > 0 ==> RowOf(heads, nodes, r) in LinksOf(nodes)
    ensures Lens(heads.Length, nodes)[r] == RowOf(heads, nodes, r).Length
  {
    if r > 0 {
      assert nodes[r - 1] in nodes;
    }
  }

  /** Row p is before the key `lo`, and the rows after it that have more than `lev` levels are not before
      the key `hi`. */
  ghost predicate Searched(nodes: seq<SkipNode>, lo: nat, hi: nat, p: nat, lev: nat) {
    && p <= |nodes|
    && (p > 0 ==> nodes[p - 1].key < lo)
    && forall j :: p <= j < |nodes| && nodes[j].links.Length > lev ==> nodes[j].key >= hi
  }

  /** Down one level: the next row is not before the key. */
  lemma SearchDown(heads: nat, nodes: seq<SkipNode>, lo: nat, hi: nat, p: nat, lev: nat)
    requires Sorted(nodes) && p <= |nodes| && (p > 0 ==> nodes[p - 1].key < lo)
    requires var next := Target(heads, nodes, p, lev); next == null || next.key >= hi
    ensures Searched(nodes, lo, hi, p, lev)
  {
    var s := Next(Lens(heads, nodes), p, lev);
    forall j | p <= j < |nodes| && nodes[j].links.Length > lev
      ensures nodes[j].key >= hi
    {
      assert Lens(heads, nodes)[j + 1] > lev;
    }
  }

  lemma SearchRight(heads: nat, nodes: seq<SkipNode>, lo: nat, hi: nat, p: nat, lev: nat)
    requires p <= |nodes|
    requires var next := Target(heads, nodes, p, lev); next != null && next.key < lo
    ensures var s := Next(Lens(heads, nodes), p, lev);
            && p < s <= |nodes| && nodes[s - 1] == Target(heads, nodes, p, lev)
            && nodes[s - 1].links.Length > lev
            && forall m: nat :: Searched(nodes, lo, hi, p, m) ==> Searched(nodes, lo, hi, s, m)
  {
    assert Lens(heads, nodes)[Next(Lens(heads, nodes), p, lev)] > lev;
  }

  class SkipStash {
    /** The number of bytes of a key. */
    const idLen: nat
    var heads: array<SkipNode?>
    var size: nat
    /** The nodes in the order of the bottom level. */
    ghost var nodes: seq<SkipNode>
    ghost var contents: map<nat, Bytes>

    /** The number of bits of a key. */
    function Width(): nat {
      8 * idLen
    }

    ghost predicate Shaped()
      reads this
    {
      && Sorted(nodes) && Tall(Width(), heads.Length, nodes) && Apart(heads, nodes)
      && size == |nodes|
    }

    ghost predicate Holds()
      reads this, nodes
    {
      Stores(nodes, contents)
    }

    ghost predicate Valid()
      reads this, heads, nodes, LinksOf(nodes)
    {
      Shaped() && Woven(heads, nodes) && Holds()
    }

    constructor (idLen: nat)
      ensures Valid() && contents == map[] && this.idLen == idLen
      ensures fresh(heads) && nodes == []
    {
      this.idLen, size, nodes, contents := idLen, 0, [], map[];
      heads := new SkipNode?[1](_ => null);
    }

    /** The height of a key, from its bytes. */
    static method HeightOf(ident: Bytes) returns (height: nat)
      ensures height <= 8 * |ident| && forall j :: |ident| - height / 8 <= j < |ident| ==> ident[j] == 0
      ensures height < 8 * |ident| ==>
                var b, p := ident[|ident| - 1 - height / 8], Pow2(height % 8);
                b % p == 0 && b / p % 2 == 1
      ensures height == Height(Number(ident), 8 * |ident|)
    {
      hide LowestSet, BitLength, Pow2;
      var addon := 0;
      var k := |ident|;
      assert ident[..k] == ident;
      while k > 0
        invariant 0 <= k <= |ident| && addon == 8 * (|ident| - k)
        invariant forall j :: k <= j < |ident| ==> ident[j] == 0
        invariant Height(Number(ident), 8 * |ident|) == addon + Height(Number(ident[..k]), 8 * k)
      {
        k := k - 1;
        var b := ident[k];
        assert ident[..k + 1][..k] == ident[..k];
        ByteHeight(Number(ident[..k]), b, k);
        var lowestBit := BitLength(LowestSet(b)) - 1;
        if lowestBit >= 0 {
          LowBit(b);
          ByteAt(addon, lowestBit, |ident| - 1 - k);
          return addon + lowestBit;
        }
        addon := addon + 8;
      }
      height := addon;
    }

    method Len() returns (n: nat)
      requires Valid()
      ensures n == |contents|
    {
      KeysCount(nodes, contents);
      n := size;
    }

    method GetItem(key: nat) returns (value: Option<Bytes>)
      requires Valid()
      ensures value == if key in contents then Some(contents[key]) else None
    {
      hide Lens, Target, Searched, Sorted, Apart, Next;
      var links := heads;
      var level: int := heads.Length - 1;
      ghost var p: nat := 0;
      SearchStart(heads.Length, nodes, key, key + 1, Width());
      while level >= 0
        invariant -1 <= level < links.Length && p <= |nodes| && links == RowOf(heads, nodes, p)
        invariant Searched(nodes, key, key + 1, p, level + 1)
        decreases level, |nodes| - p
      {
        RowInFrame(heads, nodes, p);
        assert links[level] == Target(heads.Length, nodes, p, level);
        SearchedBefore(nodes, key, key + 1, p, level + 1);
        if links[level] == null || key < links[level].key {
          SearchDown(heads.Length, nodes, key, key + 1, p, level);
          level := level - 1;
        } else if key > links[level].key {
          SearchRight(heads.Length, nodes, key, key + 1, p, level);
          p := Next(Lens(heads.Length, nodes), p, level);
          links := links[level].links;
        } else {
          TargetIn(heads.Length, nodes, p, level);
          return Some(links[level].value);
        }
      }
      NotFound(nodes, key, p);
      value := None;
    }

    /** Adds levels to the head up to that of a key. */
    method GrowHeads(keyLevel: nat)
      requires Valid()
      modifies this`heads
      ensures Valid() && heads.Length > keyLevel
      ensures heads == old(heads) || fresh(heads)
    {
      hide Sorted, Apart, Target, Lens, Next;
      if keyLevel >= heads.Length {
        var more := new SkipNode?[keyLevel + 1](_ => null);
        forall l | 0 <= l < heads.Length {
          more[l] := heads[l];
        }
        MoreHeads(heads, more, nodes, Width());
        heads := more;
      }
    }

    /** Makes a link of row p lead to the new node. */
    method LinkNode(links: array<SkipNode?>, level: nat, x: SkipNode, ghost p: nat, ghost q: nat)
      requires Apart(heads, nodes) && PartInserted(heads, nodes, q, x, level)
      requires p < q <= |nodes| + 1 && links == RowOf(heads, nodes, p)
      requires level < links.Length && level < x.links.Length
      requires Next(Lens(heads.Length, nodes), p, level) >= q
      modifies links
      ensures PartInserted(heads, nodes, q, x, level - 1)
      ensures forall l :: 0 <= l < links.Length && l != level ==> links[l] == old(links[l])
    {
      hide Sorted, Tall, Target, Lens, Next;
      links[level] := x;
      forall r, l | 0 <= r <= |nodes| && 0 <= l < RowOf(heads, nodes, r).Length
        ensures RowOf(heads, nodes, r)[l] == Inserting(heads.Length, nodes, q, x, level - 1, r, l)
      {
        RowInFrame(heads, nodes, r);
        RowInFrame(heads, nodes, p);
        if l == level && r < q <= Next(Lens(heads.Length, nodes), r, l) {
          OneBefore(Lens(heads.Length, nodes), q, p, r, l);
        } else if r == p && l == level {
          assert false;
        }
      }
    }

    method SetItem(key: nat, value: Bytes)
      requires Valid() && key < Pow2(Width())
      modifies this, heads, LinksOf(nodes), nodes
      ensures Valid()
      ensures contents == old(contents)[key := value]
      ensures heads == old(heads) || fresh(heads)
      ensures forall n <- nodes :: n in old(nodes) || (fresh(n) && fresh(n.links))
    {
      hide Sorted, Tall, Apart, Target, Lens, Next, Searched, Height, Pow2;
      var ident := Digits(key, idLen);
      var keyLevel := HeightOf(ident);
      DigitsNumber(key, idLen);
      GrowHeads(keyLevel);
      var found, links, p := FindLevel(key, keyLevel);
      if found != null {
        Overwrite(found, key, value);
      } else {
        InsertNew(key, value, keyLevel, links, p);
      }
    }

    /** Searches from the top down to the level of a key: its node, or the links of the row before it. */
    method FindLevel(key: nat, keyLevel: nat) returns (found: SkipNode?, links: array<SkipNode?>, ghost p: nat)
      requires Valid() && keyLevel < heads.Length && keyLevel == Height(key, Width())
      ensures found != null ==> found in nodes && found.key == key
      ensures found == null ==> p <= |nodes| && links == RowOf(heads, nodes, p) && keyLevel < links.Length
                                && Searched(nodes, key, key + 1, p, keyLevel) && forall n <- nodes :: n.key != key
    {
      hide Lens, Target, Searched, Sorted, Apart, Next, Height;
      found := null;
      links := heads;
      p := 0;
      var level: int := heads.Length - 1;
      SearchStart(heads.Length, nodes, key, key + 1, Width());
      while level >= keyLevel
        invariant keyLevel - 1 <= level < links.Length && p <= |nodes| && links == RowOf(heads, nodes, p)
        invariant keyLevel < links.Length && found == null
        invariant Searched(nodes, key, key + 1, p, level + 1)
        decreases level, |nodes| - p
      {
        RowInFrame(heads, nodes, p);
        assert links[level] == Target(heads.Length, nodes, p, level);
        SearchedBefore(nodes, key, key + 1, p, level + 1);
        if links[level] == null || key < links[level].key {
          SearchDown(heads.Length, nodes, key, key + 1, p, level);
          level := level - 1;
        } else if key > links[level].key {
          SearchRight(heads.Length, nodes, key, key + 1, p, level);
          p := Next(Lens(heads.Length, nodes), p, level);
          links := links[level].links;
        } else {
          TargetIn(heads.Length, nodes, p, level);
          return links[level], links, p;
        }
      }
      NotAtLevel(nodes, key, p, keyLevel, heads.Length, Width());
    }

    /** Moves right along a level as long as the next node is before the key. */
    method SkipTo(key: nat, level: nat, first: array<SkipNode?>, ghost x: SkipNode, ghost p0: nat, ghost q: nat)
      returns (links: array<SkipNode?>, ghost p: nat)
      requires Apart(heads, nodes) && PartInserted(heads, nodes, q, x, level)
      requires p0 < q <= |nodes| + 1 && first == RowOf(heads, nodes, p0) && level < first.Length
      requires Ranked(nodes, key, q)
      ensures p < q && links == RowOf(heads, nodes, p) && level < links.Length
      ensures Next(Lens(heads.Length, nodes), p, level) >= q
    {
      hide Sorted, Tall, Apart, Target, Lens, Next, Ranked;
      links, p := first, p0;
      RowInFrame(heads, nodes, p);
      assert links[level] == Inserting(heads.Length, nodes, q, x, level, p, level);
      NotYet(heads.Length, nodes, q, x, level, p);
      while links[level] != null && links[level].key < key
        invariant p < q && links == RowOf(heads, nodes, p) && level < links.Length
        invariant links[level] == Target(heads.Length, nodes, p, level)
        decreases |nodes| - p
      {
        RankedRight(heads.Length, nodes, key, p, level, q);
        p := Next(Lens(heads.Length, nodes), p, level);
        links := links[level].links;
        RowInFrame(heads, nodes, p);
        assert links[level] == Inserting(heads.Length, nodes, q, x, level, p, level);
        NotYet(heads.Length, nodes, q, x, level, p);
      }
      RankedStop(heads.Length, nodes, key, p, level, q);
    }

    /** Gives a node another value. */
    method Overwrite(found: SkipNode, key: nat, value: Bytes)
      requires Valid() && found in nodes && found.key == key
      modifies this`contents, found`value
      ensures Valid() && contents == old(contents)[key := value]
    {
      hide Tall, Apart, Target, Lens, Next;
      found.value := value;
      contents := contents[key := value];
      SameKey(nodes);
    }

    /** Puts a node for a new key in. */
    method InsertNew(key: nat, value: Bytes, keyLevel: nat, links: array<SkipNode?>, ghost p: nat)
      requires Valid() && keyLevel < heads.Length && keyLevel == Height(key, Width()) && key < Pow2(Width())
      requires p <= |nodes| && links == RowOf(heads, nodes, p) && keyLevel < links.Length
      requires Searched(nodes, key, key + 1, p, keyLevel) && forall n <- nodes :: n.key != key
      modifies this`size, this`nodes, this`contents, heads, LinksOf(nodes)
      ensures Valid() && contents == old(contents)[key := value]
      ensures exists x :: x in nodes && fresh(x) && fresh(x.links) && forall n <- nodes :: n in old(nodes) || n == x
    {
      hide Sorted, Tall, Apart, Target, PartInserted, NewLinks, Searched, Height, Pow2, Insert, Ranked, Rank, Stores;
      ghost var q := Rank(nodes, key);
      SearchedRank(heads.Length, nodes, key, p, keyLevel, q);
      var x := new SkipNode(key, value, keyLevel + 1);
      size := size + 1;
      WeaveIn(x, keyLevel, links, p, q);
      OthersLinks(nodes, x, heads, old(LinksOf(nodes)));
      InsertShape(heads, nodes, q, x, key, Width());
      InsertWoven(heads, nodes, q, x);
      StoresNot(nodes, contents, key);
      StoresInsert(nodes, q, x, contents);
      nodes := Insert(nodes, q - 1, x);
      contents := contents[key := value];
    }

    /** Links a new node in at one level, between a row before it and the row that this led to. */
    method WeaveAt(x: SkipNode, links: array<SkipNode?>, level: nat, ghost p: nat, ghost q: nat)
      requires Apart(heads, nodes) && x.links != heads && x.links !in LinksOf(nodes) && level < x.links.Length
      requires p < q <= |nodes| + 1 && p <= |nodes| && links == RowOf(heads, nodes, p) && level < links.Length
      requires Next(Lens(heads.Length, nodes), p, level) >= q
      requires PartInserted(heads, nodes, q, x, level) && NewLinks(heads.Length, nodes, q, x, level)
      modifies heads, LinksOf(nodes), x.links
      ensures PartInserted(heads, nodes, q, x, level - 1) && NewLinks(heads.Length, nodes, q, x, level - 1)
    {
      hide Apart, Target, Lens, Next, Insert, Inserting;
      RowInFrame(heads, nodes, p);
      assert links[level] == Inserting(heads.Length, nodes, q, x, level, p, level);
      NotYet(heads.Length, nodes, q, x, level, p);
      x.links[level] := links[level];
      TargetNew(heads.Length, nodes, q, x, p, level);
      LinkNode(links, level, x, p, q);
    }

    /** Links a new node in, from its top level down. */
    method WeaveIn(x: SkipNode, keyLevel: nat, first: array<SkipNode?>, ghost p0: nat, ghost q: nat)
      requires Apart(heads, nodes) && Woven(heads, nodes) && Ranked(nodes, x.key, q)
      requires x.links.Length == keyLevel + 1 && x.links != heads && x.links !in LinksOf(nodes)
      requires p0 <= |nodes| && p0 < q && first == RowOf(heads, nodes, p0) && keyLevel < first.Length
      requires Next(Lens(heads.Length, nodes), p0, keyLevel) >= q
      modifies heads, LinksOf(nodes), x.links
      ensures PartInserted(heads, nodes, q, x, -1) && NewLinks(heads.Length, nodes, q, x, -1)
    {
      hide Apart, Target, Lens, Next, Insert, Inserting, Ranked, PartInserted;
      RankInside(nodes, x.key, q);
      var links := first;
      ghost var p: nat := p0;
      var level := keyLevel;
      NoneInserted(heads, nodes, q, x);
      while true
        invariant 0 <= level <= keyLevel && p < q && p <= |nodes|
        invariant links == RowOf(heads, nodes, p) && level < links.Length
        invariant Next(Lens(heads.Length, nodes), p, level) >= q
        invariant PartInserted(heads, nodes, q, x, level) && NewLinks(heads.Length, nodes, q, x, level)
        decreases level
      {
        WeaveAt(x, links, level, p, q);
        if level == 0 {
          break;
        }
        level := level - 1;
        links, p := SkipTo(x.key, level, links, x, p, q);
      }
    }

    // -------------------------------------------------------------- removing

    /** Makes the row before a node at a level skip the node. */
    method Unlink(links: array<SkipNode?>, level: nat, ghost p: nat, ghost q: nat)
      requires Apart(heads, nodes) && q <= |nodes| && PartRemoved(heads, nodes, q, level)
      requires p < q && links == RowOf(heads, nodes, p) && level < links.Length
      requires Next(Lens(heads.Length, nodes), p, level) == q
      requires links[level] != null && links[level].links == RowOf(heads, nodes, q) && level < links[level].links.Length
      modifies links
      ensures PartRemoved(heads, nodes, q, level - 1)
    {
      hide Sorted, Tall, Target, Lens, Next;
      assert links[level].links[level] == Removing(heads.Length, nodes, q, level, q, level);
      links[level] := links[level].links[level];
      forall r, l | 0 <= r <= |nodes| && 0 <= l < RowOf(heads, nodes, r).Length
        ensures RowOf(heads, nodes, r)[l] == Removing(heads.Length, nodes, q, level - 1, r, l)
      {
        RowInFrame(heads, nodes, r);
        RowInFrame(heads, nodes, p);
        if l == level && r < q == Next(Lens(heads.Length, nodes), r, l) {
          OneBefore(Lens(heads.Length, nodes), q, p, r, l);
        } else if r == p && l == level {
          assert false;
        }
      }
    }

    /** Removes a key; `false` is KeyError. */
    method DelItem(key: nat) returns (removed: bool)
      requires Valid()
      modifies this`size, this`nodes, this`contents, heads, LinksOf(nodes)
      ensures Valid() && contents == old(contents) - {key}
      ensures removed <==> key in old(contents)
      ensures heads == old(heads) && forall n <- nodes :: n in old(nodes)
    {
      hide Sorted, Tall, Apart, Target, PartRemoved, Height, Pow2, Remove, Stores;
      ghost var q := RowWith(nodes, key);
      StoresNot(nodes, contents, key);
      removed := UnlinkAll(key, q);
      if removed {
        RemoveShape(heads, nodes, q, Width());
        RemoveWoven(heads, nodes, q);
        StoresRemove(nodes, q, contents);
        nodes := Remove(nodes, q - 1);
        contents := contents - {key};
        size := size - 1;
      } else {
        NoneRemoved(heads, nodes, -1);
        assert contents - {key} == contents;
      }
    }

    /** Unlinks the node with a key from every level that it is in. */
    method UnlinkAll(key: nat, ghost q: nat) returns (removed: bool)
      requires Sorted(nodes) && Apart(heads, nodes) && Woven(heads, nodes) && Tall(Width(), heads.Length, nodes)
      requires q == RowWith(nodes, key)
      modifies heads, LinksOf(nodes)
      ensures PartRemoved(heads, nodes, q, -1)
      ensures removed <==> q > 0
    {
      hide Sorted, Apart, Tall, Target, Lens, Next, Searched, Woven, PartRemoved;
      RowWithKey(nodes, key);
      var links := heads;
      var level: int := heads.Length - 1;
      removed := false;
      ghost var p: nat := 0;
      SearchStart(heads.Length, nodes, key, key, Width());
      NoneRemovedYet(heads, nodes, q, level, Width());
      while level >= 0
        invariant -1 <= level < links.Length && p <= |nodes| && links == RowOf(heads, nodes, p)
        invariant Searched(nodes, key, key, p, level + 1) && (q > 0 ==> p < q)
        invariant PartRemoved(heads, nodes, q, level)
        invariant removed <==> q > 0 && level + 1 < nodes[q - 1].links.Length
        decreases level, |nodes| - p
      {
        RowInFrame(heads, nodes, p);
        NotYetRemoved(heads, nodes, q, level, p);
        SearchedBefore(nodes, key, key, p, level + 1);
        if links[level] == null || key < links[level].key {
          SearchDown(heads.Length, nodes, key, key + 1, p, level);
          SearchDown(heads.Length, nodes, key, key, p, level);
          LevelDone(heads, nodes, key, p, level, q);
          level := level - 1;
        } else if key > links[level].key {
          SearchRight(heads.Length, nodes, key, key, p, level);
          RightOfKey(heads.Length, nodes, p, level, q);
          p := Next(Lens(heads.Length, nodes), p, level);
          links := links[level].links;
        } else {
          FoundRow(heads.Length, nodes, key, p, level, q);
          SearchDown(heads.Length, nodes, key, key, p, level);
          RowInFrame(heads, nodes, q);
          removed := true;
          Unlink(links, level, p, q);
          level := level - 1;
        }
      }
    }

    // -------------------------------------------------------------- ranges

    /** The keys from `start` on, and below `stop` if there is one, in ascending order. */
    method KeysRange(start: nat, stop: Option<nat>) returns (keys: seq<nat>)
      requires Valid()
      ensures forall k :: k in keys <==> k in contents && start <= k && (stop.Some? ==> k < stop.value)
      ensures forall i, j :: 0 <= i < j < |keys| ==> keys[i] < keys[j]
    {
      hide Lens, Target, Searched, Sorted, Apart, Next, Stores, IsRun;
      var links := heads;
      var level: int := heads.Length - 1;
      ghost var p: nat := 0;
      SearchStart(heads.Length, nodes, start, start, Width());
      while level >= 0
        invariant -1 <= level < links.Length && p <= |nodes| && links == RowOf(heads, nodes, p) && links.Length > 0
        invariant Searched(nodes, start, start, p, level + 1)
        decreases level, |nodes| - p
      {
        RowInFrame(heads, nodes, p);
        assert links[level] == Target(heads.Length, nodes, p, level);
        SearchedBefore(nodes, start, start, p, level + 1);
        if links[level] == null || start <= links[level].key {
          SearchDown(heads.Length, nodes, start, start, p, level);
          level := level - 1;
        } else {
          SearchRight(heads.Length, nodes, start, start, p, level);
          p := Next(Lens(heads.Length, nodes), p, level);
          links := links[level].links;
        }
      }
      keys := Collect(links, stop, p);
      RangeKeys(nodes, contents, start, stop, p, keys);
    }

    /** The keys of the nodes after a row, as long as they are below `stop`. */
    method Collect(first: array<SkipNode?>, stop: Option<nat>, ghost start: nat) returns (keys: seq<nat>)
      requires Valid() && start <= |nodes| && first == RowOf(heads, nodes, start) && first.Length > 0
      ensures IsRun(nodes, start, stop, keys)
    {
      hide Lens, Target, Sorted, Apart, Next, Stores;
      keys := [];
      var links := first;
      ghost var p: nat := start;
      NextRow(heads.Length, nodes, p, Width());
      while links[0] != null && (stop.None? || links[0].key < stop.value)
        invariant start <= p <= |nodes| && links == RowOf(heads, nodes, p) && links.Length > 0
        invariant Target(heads.Length, nodes, p, 0) == if p < |nodes| then nodes[p] else null
        invariant |keys| == p - start && forall j :: 0 <= j < |keys| ==> keys[j] == nodes[start + j].key
        invariant forall j :: 0 <= j < |keys| && stop.Some? ==> keys[j] < stop.value
        decreases |nodes| - p
      {
        RowInFrame(heads, nodes, p);
        assert links[0] == Target(heads.Length, nodes, p, 0);
        keys := keys + [links[0].key];
        links := links[0].links;
        assert nodes[p] in nodes;
        p := p + 1;
        NextRow(heads.Length, nodes, p, Width());
      }
      RowInFrame(heads, nodes, p);
      assert links[0] == Target(heads.Length, nodes, p, 0);
    }

    /** All keys, in ascending order. */
    method Keys() returns (keys: seq<nat>)
      requires Valid()
      ensures forall k :: k in keys <==> k in contents
      ensures forall i, j :: 0 <= i < j < |keys| ==> keys[i] < keys[j]
    {
      hide Lens, Target, Searched, Sorted, Apart, Next, Stores, IsRun;
      keys := Collect(heads, None, 0);
      SearchZero(nodes);
      RangeKeys(nodes, contents, 0, None, 0, keys);
    }
  }

  /** At the top, no row has more levels than the head. */
  lemma SearchStart(heads: nat, nodes: seq<SkipNode>, lo: nat, hi: nat, width: nat)
    requires Tall(width, heads, nodes)
    ensures Searched(nodes, lo, hi, 0, heads)
  {
    forall j | 0 <= j < |nodes|
      ensures nodes[j].links.Length <= heads
    {
      assert nodes[j] in nodes;
    }
  }

  lemma SearchedBefore(nodes: seq<SkipNode>, lo: nat, hi: nat, p: nat, lev: nat)
    requires Searched(nodes, lo, hi, p, lev)
    ensures p <= |nodes| && (p > 0 ==> nodes[p - 1].key < lo)
  {
  }

  lemma ByteAt(addon: nat, t: nat, m: nat)
    requires addon == 8 * m && t < 8
    ensures (addon + t) / 8 == m && (addon + t) % 8 == t
  {
  }

  lemma ByteHeight(front: nat, b: Byte, k: nat)
    ensures Height(256 * front + b, 8 * (k + 1)) ==
            if b == 0 then 8 + Height(front, 8 * k) else BitLength(LowestSet(b)) - 1
    ensures BitLength(LowestSet(0)) == 0
    ensures b > 0 ==> LowestSet(b) > 0
  {
    var x := 256 * front + b;
    HeightSplit(x, 8, 8 * (k + 1));
    assert Pow2(8) == 256 by {
      Pow2Bytes(1);
    }
    ShlByte(front);
    HeightLow(b, front, 8);
    if b == 0 {
      HeightZero(8);
      ShrInterval(x, front, 8);
      ShlMonotone(front, front + 1, 8);
    } else {
      LowestSetHeight(b, 8);
    }
  }

  lemma ShlByte(x: nat)
    ensures Shl(x, 8) == 256 * x
  {
    assert Shl(x, 8) == 2 * Shl(x, 7);
    assert Shl(x, 7) == 2 * Shl(x, 6);
    assert Shl(x, 6) == 2 * Shl(x, 5);
    assert Shl(x, 5) == 2 * Shl(x, 4);
    assert Shl(x, 4) == 2 * Shl(x, 3);
    assert Shl(x, 3) == 2 * Shl(x, 2);
    assert Shl(x, 2) == 2 * Shl(x, 1);
    assert Shl(x, 1) == 2 * Shl(x, 0);
  }

  lemma TargetIn(heads: nat, nodes: seq<SkipNode>, p: nat, l: nat)
    requires p <= |nodes|
    ensures var next := Target(heads, nodes, p, l); next != null ==> next in nodes
  {
  }

  /** When the bottom level was searched, the key is in no row. */
  lemma NotFound(nodes: seq<SkipNode>, key: nat, p: nat)
    requires Sorted(nodes) && Searched(nodes, key, key + 1, p, 0)
    requires forall n <- nodes :: n.links.Length > 0
    ensures forall n <- nodes :: n.key != key
  {
    forall n | n in nodes
      ensures n.key != key
    {
      var j :| 0 <= j < |nodes| && nodes[j] == n;
      assert j < p ==> nodes[j].key <= nodes[p - 1].key;
    }
  }

  ghost function KeysOf(nodes: seq<SkipNode>): set<nat> {
    set n <- nodes :: n.key
  }

  lemma KeysCount(nodes: seq<SkipNode>, contents: map<nat, Bytes>)
    requires Sorted(nodes)
    requires forall n <- nodes :: n.key in contents
    requires forall k <- contents :: exists n <- nodes :: n.key == k
    ensures |nodes| == |contents|
  {
    KeysSize(nodes);
    assert contents.Keys == KeysOf(nodes);
  }

  lemma {:induction false} KeysSize(nodes: seq<SkipNode>)
    requires Sorted(nodes)
    ensures |KeysOf(nodes)| == |nodes|
  {
    if nodes != [] {
      var front, last := nodes[..|nodes| - 1], nodes[|nodes| - 1];
      KeysSize(front);
      assert nodes == front + [last];
      assert KeysOf(nodes) == KeysOf(front) + {last.key};
      assert last.key !in KeysOf(front);
    }
  }

  // ---------------------------------------------------------------- putting a node in

  /** The row at which a new key goes in: those before have smaller keys, the others larger ones. */
  ghost predicate Ranked(nodes: seq<SkipNode>, key: nat, q: nat) {
    && 0 < q <= |nodes| + 1
    && (forall j :: 0 <= j < q - 1 ==> nodes[j].key < key)
    && (forall j :: q - 1 <= j < |nodes| ==> nodes[j].key > key)
  }

  ghost function Rank(nodes: seq<SkipNode>, key: nat): (q: nat)
    ensures 0 < q <= |nodes| + 1
  {
    if nodes == [] || nodes[0].key > key then 1 else 1 + Rank(nodes[1..], key)
  }

  lemma {:induction false} RankIs(nodes: seq<SkipNode>, key: nat)
    requires Sorted(nodes) && forall n <- nodes :: n.key != key
    ensures Ranked(nodes, key, Rank(nodes, key))
  {
    if nodes != [] && nodes[0].key <= key {
      assert nodes[0] in nodes;
      assert forall n <- nodes[1..] :: n in nodes;
      RankIs(nodes[1..], key);
    }
  }

  lemma SearchedRank(heads: nat, nodes: seq<SkipNode>, key: nat, p: nat, lev: nat, q: nat)
    requires Sorted(nodes) && Searched(nodes, key, key + 1, p, lev) && (forall n <- nodes :: n.key != key)
    requires q == Rank(nodes, key)
    ensures Ranked(nodes, key, q) && p < q
    ensures Next(Lens(heads, nodes), p, lev) >= q
  {
    RankIs(nodes, key);
    var s := Next(Lens(heads, nodes), p, lev);
    if s <= |nodes| {
      assert Lens(heads, nodes)[s] > lev;
      assert nodes[s - 1].links.Length > lev;
    }
  }

  lemma RankedRight(heads: nat, nodes: seq<SkipNode>, key: nat, p: nat, lev: nat, q: nat)
    requires Ranked(nodes, key, q) && p < q
    requires var next := Target(heads, nodes, p, lev); next != null && next.key < key
    ensures var s := Next(Lens(heads, nodes), p, lev);
            && p < s < q && s <= |nodes| && nodes[s - 1] == Target(heads, nodes, p, lev)
            && lev < nodes[s - 1].links.Length
  {
    var s := Next(Lens(heads, nodes), p, lev);
    assert Lens(heads, nodes)[s] > lev;
  }

  lemma RankedStop(heads: nat, nodes: seq<SkipNode>, key: nat, p: nat, lev: nat, q: nat)
    requires Ranked(nodes, key, q) && p < q
    requires var next := Target(heads, nodes, p, lev); next == null || next.key >= key
    ensures Next(Lens(heads, nodes), p, lev) >= q
  {
  }

  lemma NotYet(heads: nat, nodes: seq<SkipNode>, q: nat, x: SkipNode, lev: nat, p: nat)
    requires p <= |nodes|
    ensures Inserting(heads, nodes, q, x, lev, p, lev) == Target(heads, nodes, p, lev)
  {
  }

  /** The links of the new node above `lev` are those that it has in the list. */
  ghost predicate NewLinks(heads: nat, nodes: seq<SkipNode>, q: nat, x: SkipNode, lev: int)
    requires 0 < q <= |nodes| + 1
    reads x.links
  {
    InsertAt(nodes, q - 1, x);
    forall l :: 0 <= l < x.links.Length && lev < l ==> x.links[l] == Target(heads, Insert(nodes, q - 1, x), q, l)
  }

  lemma RankInside(nodes: seq<SkipNode>, key: nat, q: nat)
    requires Ranked(nodes, key, q)
    ensures 0 < q <= |nodes| + 1
  {
  }

  lemma OthersLinks(nodes: seq<SkipNode>, x: SkipNode, heads: array<SkipNode?>, links: set<array<SkipNode?>>)
    requires LinksOf(nodes) == links && x.links !in links
    ensures forall n <- nodes :: n.links != x.links
  {
  }

  lemma NoneInserted(heads: array<SkipNode?>, nodes: seq<SkipNode>, q: nat, x: SkipNode)
    requires Woven(heads, nodes)
    ensures PartInserted(heads, nodes, q, x, x.links.Length - 1)
  {
  }

  lemma NotAtLevel(nodes: seq<SkipNode>, key: nat, p: nat, lev: nat, heads: nat, width: nat)
    requires Sorted(nodes) && Tall(width, heads, nodes) && lev == Height(key, width)
    requires Searched(nodes, key, key + 1, p, lev)
    ensures forall n <- nodes :: n.key != key
  {
    forall n | n in nodes
      ensures n.key != key
    {
      var j :| 0 <= j < |nodes| && nodes[j] == n;
      assert j < p ==> nodes[j].key <= nodes[p - 1].key;
    }
  }

  lemma SameKey(nodes: seq<SkipNode>)
    requires Sorted(nodes)
    ensures forall m, n | m in nodes && n in nodes && m.key == n.key :: m == n
  {
  }

  lemma MoreHeads(heads: array<SkipNode?>, more: array<SkipNode?>, nodes: seq<SkipNode>, width: nat)
    requires Woven(heads, nodes) && Tall(width, heads.Length, nodes) && Apart(heads, nodes)
    requires heads.Length <= more.Length && forall r :: 0 <= r <= |nodes| ==> RowOf(heads, nodes, r) != more
    requires forall l :: 0 <= l < more.Length ==> more[l] == if l < heads.Length then heads[l] else null
    ensures Woven(more, nodes) && Tall(width, more.Length, nodes) && Apart(more, nodes)
  {
    forall r, l | 0 <= r <= |nodes| && 0 <= l < RowOf(more, nodes, r).Length
      ensures RowOf(more, nodes, r)[l] == Target(more.Length, nodes, r, l)
    {
      MoreTarget(heads.Length, more.Length, nodes, r, l);
      if r == 0 && l >= heads.Length {
        TopTarget(heads.Length, nodes, width, l);
      } else {
        assert RowOf(more, nodes, r)[l] == RowOf(heads, nodes, r)[l];
      }
    }
    assert forall r :: 0 < r <= |nodes| ==> RowOf(more, nodes, r) == RowOf(heads, nodes, r);
  }

  lemma MoreTarget(heads: nat, more: nat, nodes: seq<SkipNode>, r: nat, l: nat)
    requires r <= |nodes|
    ensures Target(heads, nodes, r, l) == Target(more, nodes, r, l)
  {
    var s := Next(Lens(heads, nodes), r, l);
    forall t | r < t < s
      ensures Lens(more, nodes)[t] <= l
    {
      assert Lens(heads, nodes)[t] <= l;
    }
    NextIs(Lens(more, nodes), r, l, s);
  }

  lemma TopTarget(heads: nat, nodes: seq<SkipNode>, width: nat, l: nat)
    requires Tall(width, heads, nodes) && l >= heads
    ensures Target(heads, nodes, 0, l) == null
  {
    forall t | 0 < t < |nodes| + 1
      ensures Lens(heads, nodes)[t] <= l
    {
      assert nodes[t - 1] in nodes;
    }
    NextIs(Lens(heads, nodes), 0, l, |nodes| + 1);
  }

  lemma InsertShape(heads: array<SkipNode?>, nodes: seq<SkipNode>, q: nat, x: SkipNode, key: nat, width: nat)
    requires Sorted(nodes) && Tall(width, heads.Length, nodes) && Apart(heads, nodes) && Ranked(nodes, key, q)
    requires x.key == key < Pow2(width) && x.links.Length == Height(key, width) + 1 <= heads.Length
    requires x.links != heads && forall n <- nodes :: n.links != x.links
    ensures Sorted(Insert(nodes, q - 1, x)) && Tall(width, heads.Length, Insert(nodes, q - 1, x))
    ensures Apart(heads, Insert(nodes, q - 1, x))
    ensures |Insert(nodes, q - 1, x)| == |nodes| + 1
  {
    hide Insert, Remove, Height, Pow2, RowOf, Apart;
    var nodes' := Insert(nodes, q - 1, x);
    InsertAt(nodes, q - 1, x);
    InsertIn(nodes, q - 1, x);
    assert Sorted(nodes');
    assert Tall(width, heads.Length, nodes');
    InsertApart(heads, nodes, q, x);
  }

  lemma InsertApart(heads: array<SkipNode?>, nodes: seq<SkipNode>, q: nat, x: SkipNode)
    requires Apart(heads, nodes) && 0 < q <= |nodes| + 1
    requires x.links != heads && forall n <- nodes :: n.links != x.links
    ensures Apart(heads, Insert(nodes, q - 1, x))
  {
    hide Insert;
    var nodes' := Insert(nodes, q - 1, x);
    RowInsert(heads, nodes, q, x, 0);
    forall r, s | 0 <= r < s <= |nodes'|
      ensures RowOf(heads, nodes', r) != RowOf(heads, nodes', s)
    {
      RowInsert(heads, nodes, q, x, r);
      RowInsert(heads, nodes, q, x, s);
    }
  }

  lemma InsertIn<T>(s: seq<T>, i: nat, x: T)
    requires i <= |s|
    ensures forall y :: y in Insert(s, i, x) <==> y in s || y == x
  {
    assert s == s[..i] + s[i..];
  }

  lemma RowInsert(heads: array<SkipNode?>, nodes: seq<SkipNode>, q: nat, x: SkipNode, r: nat)
    requires 0 < q <= |nodes| + 1 && r <= |nodes| + 1
    ensures |Insert(nodes, q - 1, x)| == |nodes| + 1
    ensures RowOf(heads, Insert(nodes, q - 1, x), r)
            == if r == q then x.links else RowOf(heads, nodes, if r < q then r else r - 1)
  {
  }

  lemma InsertWoven(heads: array<SkipNode?>, nodes: seq<SkipNode>, q: nat, x: SkipNode)
    requires 0 < q <= |nodes| + 1 && PartInserted(heads, nodes, q, x, -1) && NewLinks(heads.Length, nodes, q, x, -1)
    ensures Woven(heads, Insert(nodes, q - 1, x))
  {
    hide Insert, Remove, Target, Inserting, RowOf;
    RowInsert(heads, nodes, q, x, 0);
    var nodes' := Insert(nodes, q - 1, x);
    forall r, l | 0 <= r <= |nodes'| && 0 <= l < RowOf(heads, nodes', r).Length
      ensures RowOf(heads, nodes', r)[l] == Target(heads.Length, nodes', r, l)
    {
      RowInsert(heads, nodes, q, x, r);
      if r != q {
        TargetInsert(heads.Length, nodes, q, x, if r < q then r else r - 1, l);
      }
    }
  }

  // ---------------------------------------------------------------- taking a node out

  /** The row with a key, or 0. */
  ghost function RowWith(nodes: seq<SkipNode>, key: nat): (q: nat)
    ensures q <= |nodes|
    ensures q > 0 ==> nodes[q - 1].key == key
    ensures q == 0 ==> forall n <- nodes :: n.key != key
  {
    if nodes == [] then 0
    else if nodes[|nodes| - 1].key == key then |nodes|
    else
      assert nodes == nodes[..|nodes| - 1] + [nodes[|nodes| - 1]];
      RowWith(nodes[..|nodes| - 1], key)
  }

  lemma RowWithKey(nodes: seq<SkipNode>, key: nat)
    ensures var q := RowWith(nodes, key);
            && q <= |nodes| && (q > 0 ==> nodes[q - 1].key == key)
            && (q == 0 ==> forall n <- nodes :: n.key != key)
  {
  }

  lemma NoneRemoved(heads: array<SkipNode?>, nodes: seq<SkipNode>, lev: int)
    requires PartRemoved(heads, nodes, 0, lev)
    ensures Woven(heads, nodes)
  {
  }

  lemma NoneRemovedYet(heads: array<SkipNode?>, nodes: seq<SkipNode>, q: nat, lev: int, width: nat)
    requires Woven(heads, nodes) && q <= |nodes| && lev == heads.Length - 1 && Tall(width, heads.Length, nodes)
    ensures PartRemoved(heads, nodes, q, lev)
    ensures q > 0 ==> 0 < nodes[q - 1].links.Length <= heads.Length
  {
    assert q > 0 ==> nodes[q - 1] in nodes;
    forall r, l | 0 <= r <= |nodes| && 0 <= l < RowOf(heads, nodes, r).Length
      ensures RowOf(heads, nodes, r)[l] == Removing(heads.Length, nodes, q, lev, r, l)
    {
      assert r > 0 ==> nodes[r - 1] in nodes;
    }
  }

  lemma NotYetRemoved(heads: array<SkipNode?>, nodes: seq<SkipNode>, q: nat, lev: nat, p: nat)
    requires q <= |nodes| && PartRemoved(heads, nodes, q, lev)
    requires p <= |nodes| && lev < RowOf(heads, nodes, p).Length
    ensures RowOf(heads, nodes, p)[lev] == Target(heads.Length, nodes, p, lev)
  {
    assert RowOf(heads, nodes, p)[lev] == Removing(heads.Length, nodes, q, lev, p, lev);
  }

  lemma LevelDone(heads: array<SkipNode?>, nodes: seq<SkipNode>, key: nat, p: nat, lev: nat, q: nat)
    requires q <= |nodes| && PartRemoved(heads, nodes, q, lev) && Searched(nodes, key, key + 1, p, lev)
    requires q > 0 ==> p < q && nodes[q - 1].key == key
    ensures PartRemoved(heads, nodes, q, lev - 1)
    ensures q > 0 ==> nodes[q - 1].links.Length <= lev
  {
    forall r | 0 <= r < q
      ensures Next(Lens(heads.Length, nodes), r, lev) != q
    {
    }
  }

  lemma RightOfKey(heads: nat, nodes: seq<SkipNode>, p: nat, lev: nat, q: nat)
    requires Sorted(nodes) && q <= |nodes| && p <= |nodes|
    requires var s := Next(Lens(heads, nodes), p, lev);
             s <= |nodes| && (q > 0 ==> nodes[s - 1].key < nodes[q - 1].key)
    ensures q > 0 ==> Next(Lens(heads, nodes), p, lev) < q
  {
  }

  lemma FoundRow(heads: nat, nodes: seq<SkipNode>, key: nat, p: nat, lev: nat, q: nat)
    requires Sorted(nodes) && q <= |nodes| && p <= |nodes|
    requires q > 0 ==> nodes[q - 1].key == key
    requires q == 0 ==> forall n <- nodes :: n.key != key
    requires var next := Target(heads, nodes, p, lev); next != null && next.key == key
    ensures q > 0 && Next(Lens(heads, nodes), p, lev) == q && Target(heads, nodes, p, lev) == nodes[q - 1]
    ensures lev < nodes[q - 1].links.Length
  {
    var s := Next(Lens(heads, nodes), p, lev);
    assert nodes[s - 1] in nodes && Lens(heads, nodes)[s] > lev;
  }

  lemma RowRemove(heads: array<SkipNode?>, nodes: seq<SkipNode>, q: nat, r: nat)
    requires 0 < q <= |nodes| && r < |nodes|
    ensures |Remove(nodes, q - 1)| == |nodes| - 1
    ensures RowOf(heads, Remove(nodes, q - 1), r) == RowOf(heads, nodes, Up(r, q))
  {
  }

  lemma RemoveSorted(nodes: seq<SkipNode>, q: nat)
    requires Sorted(nodes) && 0 < q <= |nodes|
    ensures Sorted(Remove(nodes, q - 1)) && |Remove(nodes, q - 1)| == |nodes| - 1
  {
    var rest := Remove(nodes, q - 1);
    assert forall j :: 0 <= j < |nodes| - 1 ==> rest[j] == nodes[if j < q - 1 then j else j + 1];
  }

  lemma RemoveIn(nodes: seq<SkipNode>, q: nat)
    requires Sorted(nodes) && 0 < q <= |nodes|
    ensures forall n <- Remove(nodes, q - 1) :: n in nodes && n != nodes[q - 1]
    ensures forall n <- nodes :: n != nodes[q - 1] ==> n in Remove(nodes, q - 1)
    ensures Sorted(Remove(nodes, q - 1)) && |Remove(nodes, q - 1)| == |nodes| - 1
  {
    RemoveSorted(nodes, q);
    var rest := Remove(nodes, q - 1);
    forall n | n in nodes && n != nodes[q - 1]
      ensures n in rest
    {
      var j :| 0 <= j < |nodes| && nodes[j] == n;
      assert rest[if j < q - 1 then j else j - 1] == n;
    }
    forall n | n in rest
      ensures n in nodes && n.key != nodes[q - 1].key
    {
      var j :| 0 <= j < |rest| && rest[j] == n;
      assert nodes[if j < q - 1 then j else j + 1] == n;
    }
  }

  lemma RemoveShape(heads: array<SkipNode?>, nodes: seq<SkipNode>, q: nat, width: nat)
    requires Sorted(nodes) && Tall(width, heads.Length, nodes) && Apart(heads, nodes) && 0 < q <= |nodes|
    ensures var rest := Remove(nodes, q - 1);
            && Sorted(rest) && Tall(width, heads.Length, rest) && Apart(heads, rest) && |rest| == |nodes| - 1
            && (forall n <- rest :: n in nodes)
  {
    hide Remove, RowOf;
    RemoveIn(nodes, q);
    var rest := Remove(nodes, q - 1);
    forall r, s | 0 <= r < s <= |rest|
      ensures RowOf(heads, rest, r) != RowOf(heads, rest, s)
    {
      RowRemove(heads, nodes, q, r);
      RowRemove(heads, nodes, q, s);
    }
  }

  lemma RemoveWoven(heads: array<SkipNode?>, nodes: seq<SkipNode>, q: nat)
    requires 0 < q <= |nodes| && PartRemoved(heads, nodes, q, -1)
    ensures Woven(heads, Remove(nodes, q - 1))
  {
    hide Remove, Target, Removing, RowOf;
    RowRemove(heads, nodes, q, 0);
    var rest := Remove(nodes, q - 1);
    forall r, l | 0 <= r <= |rest| && 0 <= l < RowOf(heads, rest, r).Length
      ensures RowOf(heads, rest, r)[l] == Target(heads.Length, rest, r, l)
    {
      RowRemove(heads, nodes, q, r);
      TargetRemove(heads.Length, nodes, q, r, l);
    }
  }

  lemma StoresRemove(nodes: seq<SkipNode>, q: nat, contents: map<nat, Bytes>)
    requires Sorted(nodes) && 0 < q <= |nodes| && Stores(nodes, contents)
    ensures Stores(Remove(nodes, q - 1), contents - {nodes[q - 1].key})
  {
    hide Remove;
    RemoveIn(nodes, q);
    var x, rest := nodes[q - 1], Remove(nodes, q - 1);
    forall n | n in nodes && n != x
      ensures n.key != x.key && n in rest
    {
      var j :| 0 <= j < |nodes| && nodes[j] == n;
      assert j != q - 1;
    }
    assert x in nodes;
  }

  // ---------------------------------------------------------------- ranges

  /** On the bottom level, every row leads to the one after it. */
  lemma NextRow(heads: nat, nodes: seq<SkipNode>, p: nat, width: nat)
    requires Tall(width, heads, nodes) && p <= |nodes|
    ensures Target(heads, nodes, p, 0) == if p < |nodes| then nodes[p] else null
  {
    if p < |nodes| {
      assert nodes[p] in nodes;
    }
    NextIs(Lens(heads, nodes), p, 0, p + 1);
  }

  lemma SearchZero(nodes: seq<SkipNode>)
    ensures Searched(nodes, 0, 0, 0, 0)
  {
  }

  /** The keys of the nodes from index `first` on that are below `stop`. */
  ghost predicate IsRun(nodes: seq<SkipNode>, first: nat, stop: Option<nat>, keys: seq<nat>) {
    && first + |keys| <= |nodes|
    && (forall j :: 0 <= j < |keys| ==> keys[j] == nodes[first + j].key)
    && (forall j :: 0 <= j < |keys| && stop.Some? ==> keys[j] < stop.value)
    && (first + |keys| < |nodes| ==> stop.Some? && nodes[first + |keys|].key >= stop.value)
  }

  lemma BeforeRun(nodes: seq<SkipNode>, start: nat, first: nat, i: nat)
    requires Sorted(nodes) && Searched(nodes, start, start, first, 0) && i < first
    ensures i < |nodes| && nodes[i].key < start
  {
  }

  lemma AfterRun(nodes: seq<SkipNode>, first: nat, stop: Option<nat>, keys: seq<nat>, i: nat)
    requires Sorted(nodes) && IsRun(nodes, first, stop, keys) && first + |keys| <= i < |nodes|
    ensures stop.Some? && nodes[i].key >= stop.value
  {
  }

  lemma RunInside(nodes: seq<SkipNode>, contents: map<nat, Bytes>, start: nat, stop: Option<nat>, first: nat,
                  keys: seq<nat>, j: nat)
    requires Stores(nodes, contents) && Searched(nodes, start, start, first, 0) && IsRun(nodes, first, stop, keys)
    requires (forall n <- nodes :: n.links.Length > 0) && j < |keys|
    ensures keys[j] in contents && start <= keys[j] && (stop.Some? ==> keys[j] < stop.value)
  {
    assert nodes[first + j] in nodes;
  }

  lemma RunWhole(nodes: seq<SkipNode>, start: nat, stop: Option<nat>, first: nat, keys: seq<nat>, i: nat)
    requires Sorted(nodes) && Searched(nodes, start, start, first, 0) && IsRun(nodes, first, stop, keys)
    requires i < |nodes| && start <= nodes[i].key && (stop.Some? ==> nodes[i].key < stop.value)
    ensures nodes[i].key in keys
  {
    if i < first {
      BeforeRun(nodes, start, first, i);
    } else if i >= first + |keys| {
      AfterRun(nodes, first, stop, keys, i);
    } else {
      assert keys[i - first] == nodes[i].key;
    }
  }

  /** A run from the first node that is not before `start` has exactly the keys of the range, in order. */
  lemma RangeKeys(nodes: seq<SkipNode>, contents: map<nat, Bytes>, start: nat, stop: Option<nat>, first: nat,
                  keys: seq<nat>)
    requires Sorted(nodes) && Stores(nodes, contents) && (forall n <- nodes :: n.links.Length > 0)
    requires Searched(nodes, start, start, first, 0) && IsRun(nodes, first, stop, keys)
    ensures forall k :: k in keys <==> k in contents && start <= k && (stop.Some? ==> k < stop.value)
    ensures forall i, j :: 0 <= i < j < |keys| ==> keys[i] < keys[j]
  {
    forall j | 0 <= j < |keys|
      ensures keys[j] in contents && start <= keys[j] && (stop.Some? ==> keys[j] < stop.value)
    {
      RunInside(nodes, contents, start, stop, first, keys, j);
    }
    forall i | 0 <= i < |nodes| && start <= nodes[i].key && (stop.Some? ==> nodes[i].key < stop.value)
      ensures nodes[i].key in keys
    {
      RunWhole(nodes, start, stop, first, keys, i);
    }
    hide Searched;
  }

  // ---------------------------------------------------------------- levels

  /** The keys met by following the links of a level from a node on. */
  ghost function Follow(x: SkipNode?, l: nat, steps: nat): seq<nat>
    reads *
    decreases steps
  {
    if x == null || steps == 0 || l >= x.links.Length then [] else [x.key] + Follow(x.links[l], l, steps - 1)
  }

  /** The keys, in ascending order, whose heights reach a level. */
  ghost function KeysReaching(nodes: seq<SkipNode>, l: nat, width: nat): seq<nat> {
    if nodes == [] then []
    else (if Height(nodes[0].key, width) >= l then [nodes[0].key] else []) + KeysReaching(nodes[1..], l, width)
  }

  lemma {:induction false} FollowFrom(heads: array<SkipNode?>, nodes: seq<SkipNode>, width: nat, r: nat, l: nat,
                                      steps: nat)
    requires Woven(heads, nodes) && Tall(width, heads.Length, nodes) && r <= |nodes| && steps >= |nodes| - r
    ensures Follow(Target(heads.Length, nodes, r, l), l, steps) == KeysReaching(nodes[r..], l, width)
    decreases |nodes| - r, steps
  {
    var s := Next(Lens(heads.Length, nodes), r, l);
    Below(nodes, width, heads.Length, r, s - 1, l);
    if s <= |nodes| {
      var x := nodes[s - 1];
      assert x in nodes && Lens(heads.Length, nodes)[s] > l;
      assert nodes[s - 1..][0] == x && nodes[s - 1..][1..] == nodes[s..];
      assert RowOf(heads, nodes, s)[l] == Target(heads.Length, nodes, s, l);
      FollowFrom(heads, nodes, width, s, l, steps - 1);
    } else {
      assert nodes[s - 1..] == [];
    }
  }

  /** Rows that do not have a level can be left out. */
  lemma {:induction false} Below(nodes: seq<SkipNode>, width: nat, heads: nat, r: nat, s: nat, l: nat)
    requires Tall(width, heads, nodes) && r <= s <= |nodes|
    requires forall t :: r < t <= s ==> Lens(heads, nodes)[t] <= l
    ensures KeysReaching(nodes[r..], l, width) == KeysReaching(nodes[s..], l, width)
    decreases s - r
  {
    if r < s {
      assert Lens(heads, nodes)[r + 1] <= l && nodes[r] in nodes;
      assert nodes[r..][0] == nodes[r] && nodes[r..][1..] == nodes[r + 1..];
      Below(nodes, width, heads, r + 1, s, l);
    }
  }

  /** Each level's list is exactly the sorted keys whose heights reach that level. */
  lemma LevelList(heads: array<SkipNode?>, nodes: seq<SkipNode>, width: nat, l: nat)
    requires Woven(heads, nodes) && Tall(width, heads.Length, nodes) && l < heads.Length
    ensures Follow(heads[l], l, |nodes|) == KeysReaching(nodes, l, width)
  {
    assert RowOf(heads, nodes, 0)[l] == Target(heads.Length, nodes, 0, l);
    FollowFrom(heads, nodes, width, 0, l, |nodes|);
    assert nodes[0..] == nodes;
  }
}

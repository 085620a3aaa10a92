/** Adding a level of leaves to a vORAM.  The new leaves N .. 2N - 1, N = 2^L, are written one after the
    other while the positions above the current one are read.  `cur` are the positions that had been
    read before growing. */
module VoramGrow {

  import opened Bits
  import opened VoramCodec
  import opened VoramTree
  import opened VoramSteps

  /** The ancestors of a leaf that are more than j levels above it. */
  ghost function Spine(pos: nat, j: nat, levels: nat): set<nat> {
    set i | j < i <= levels :: Shr(pos, i)
  }

  /** The new leaves before pos are written, and among the old positions, `read` are missing. */
  ghost predicate Growing(tree: Tree, read: set<nat>, levels: nat, pos: nat) {
    forall p :: p in tree <==> 0 < p && ((p < Pow2(levels) && p !in read) || Pow2(levels) <= p < pos)
  }

  /** What was read before and the ancestors of the leaf from j + 1 levels up are missing. */
  ghost predicate Grown(tree: Tree, cur: set<nat>, read: set<nat>, keys: set<nat>, levels: nat, leaf: nat,
                        j: nat, pos: nat) {
    && Growing(tree, read, levels, pos)
    && read == cur + Spine(leaf, j, levels)
    && KeysOf(keys, read)
    && (forall p <- cur :: 0 < p < Pow2(levels))
    && Pow2(levels) <= pos <= Pow2(levels + 1)
    && j <= levels
  }

  lemma ShrNext(pos: nat, j: nat)
    ensures Shr(pos, j + 1) == Shr(pos, j) / 2
  {
  }

  lemma SpineNext(pos: nat, j: nat, levels: nat)
    requires j < levels
    ensures Spine(pos, j, levels) == Spine(pos, j + 1, levels) + {Shr(pos, j + 1)}
  {
    hide Shr;
  }

  lemma {:induction false} ShrSmaller(pos: nat, i: nat)
    ensures i > 0 && pos > 0 ==> Shr(pos, i) < pos
    ensures Shr(pos, i) <= pos
    decreases i
  {
    if i > 0 {
      ShrSmaller(pos, i - 1);
    }
  }

  /** The ancestors of a leaf: positive up to the root, and zero beyond. */
  lemma LeafAncestor(pos: nat, i: nat, levels: nat)
    requires Pow2(levels) <= pos < Pow2(levels + 1)
    ensures i <= levels ==> Pow2(levels - i) <= Shr(pos, i) < Pow2(levels - i + 1)
    ensures i > levels ==> Shr(pos, i) == 0
    ensures 0 < i ==> Shr(pos, i) < Pow2(levels)
    ensures i == levels ==> Shr(pos, i) == 1
  {
    if i <= levels {
      ShrRange(pos, levels + 1, i);
      if i > 0 {
        Pow2Monotone(levels - i + 1, levels);
      }
    } else {
      ShrRange(pos, levels + 1, levels);
      ShrShr(pos, levels, i - levels);
      ShrSmaller(1, i - levels);
    }
  }

  /** When all ancestors of an ancestor were read, nothing in the tree covers it. */
  lemma SpineUncovered(tree: Tree, read: set<nat>, levels: nat, leaf: nat, j: nat, pos: nat)
    requires Growing(tree, read, levels, pos) && Spine(leaf, j, levels) <= read
    requires Pow2(levels) <= leaf < Pow2(levels + 1)
    requires j == 0 ==> leaf !in tree
    ensures Uncovered(tree - {Shr(leaf, j)}, Shr(leaf, j))
  {
    forall i: nat
      ensures Shr(Shr(leaf, j), i) !in tree - {Shr(leaf, j)}
    {
      if i > 0 {
        ShrShr(leaf, j, i);
        LeafAncestor(leaf, j + i, levels);
        if j + i <= levels {
          assert Shr(leaf, j + i) in Spine(leaf, j, levels);
        }
      }
    }
  }

  lemma GrowRead(tree: Tree, cur: set<nat>, read: set<nat>, keys: set<nat>, levels: nat, leaf: nat, j: nat)
    requires Grown(tree, cur, read, keys, levels, leaf, j, leaf) && 0 < j
    requires Pow2(levels) <= leaf < Pow2(levels + 1)
    ensures var q := Shr(leaf, j);
            && (if q in read then q !in tree else q in tree && Uncovered(tree - {q}, q))
            && Grown(tree - {q}, cur, read + {q}, keys + (if q in read then {} else {2 * q, 2 * q + 1}),
                     levels, leaf, j - 1, leaf)
  {
    hide Uncovered, Spine, Shr;
    var q := Shr(leaf, j);
    LeafAncestor(leaf, j, levels);
    SpineUncovered(tree, read, levels, leaf, j, leaf);
    SpineNext(leaf, j - 1, levels);
    forall p
      ensures p / 2 == q <==> p == 2 * q || p == 2 * q + 1
    {
    }
    if q in read {
      assert tree - {q} == tree && read + {q} == read;
    }
  }

  /** Writing a new leaf. */
  lemma GrowLeaf(tree: Tree, cur: set<nat>, read: set<nat>, keys: set<nat>, levels: nat, leaf: nat)
    requires Grown(tree, cur, read, keys, levels, leaf, 0, leaf)
    requires Pow2(levels) <= leaf < Pow2(levels + 1) && levels > 0
    ensures Uncovered(tree, leaf) && BitLength(leaf) == levels + 1 && leaf !in read
    ensures KeysOf(keys - {2 * leaf, 2 * leaf + 1} + {leaf}, read)
  {
    SpineUncovered(tree, read, levels, leaf, 0, leaf);
    assert tree - {leaf} == tree;
    BitLengthUnique(leaf, levels);
    LeafAncestor(leaf, 1, levels);
    ShrNext(leaf, 0);
    assert Shr(leaf, 1) in Spine(leaf, 0, levels);
    assert leaf !in read by {
      forall i | 0 < i <= levels
        ensures Shr(leaf, i) != leaf
      {
        LeafAncestor(leaf, i, levels);
      }
    }
    hide Spine, Shr, Uncovered;
    assert leaf / 2 in read;
    assert (2 * leaf) / 2 == leaf && (2 * leaf + 1) / 2 == leaf;
  }

  lemma GrewLeaf(tree: Tree, cur: set<nat>, read: set<nat>, keys: set<nat>, levels: nat, leaf: nat, b: Bucket)
    requires Grown(tree, cur, read, keys, levels, leaf, 0, leaf)
    requires Pow2(levels) <= leaf < Pow2(levels + 1) && levels > 0
    ensures Grown(tree[leaf := b], cur, read, keys - {2 * leaf, 2 * leaf + 1} + {leaf}, levels, leaf, 0, leaf + 1)
  {
    GrowLeaf(tree, cur, read, keys, levels, leaf);
    hide Spine, KeysOf, Uncovered, BitLength;
  }

  /** An ancestor of the leaf that was read only now is written back. */
  lemma GrowUp(tree: Tree, cur: set<nat>, read: set<nat>, keys: set<nat>, levels: nat, leaf: nat, j: nat)
    requires Grown(tree, cur, read, keys, levels, leaf, j, leaf + 1) && j < levels
    requires Pow2(levels) <= leaf < Pow2(levels + 1)
    ensures 0 < Shr(leaf, j + 1) < Pow2(levels + 1) && Shr(leaf, j + 1) in read
    ensures Shr(leaf, j + 1) in cur ==> Grown(tree, cur, read, keys, levels, leaf, j + 1, leaf + 1)
    ensures var q := Shr(leaf, j + 1);
            q !in cur ==> Uncovered(tree, q) && {2 * q, 2 * q + 1} <= keys
  {
    var q := Shr(leaf, j + 1);
    LeafAncestor(leaf, j + 1, levels);
    SpineNext(leaf, j, levels);
    SpineUncovered(tree, read, levels, leaf, j + 1, leaf + 1);
    Pow2Monotone(levels, levels + 1);
    hide Uncovered, Spine, Shr;
    assert q in read && q !in tree;
    assert tree - {q} == tree;
    assert (2 * q) / 2 == q && (2 * q + 1) / 2 == q;
  }

  lemma SpineRest(leaf: nat, j: nat, levels: nat)
    requires j < levels && Pow2(levels) <= leaf < Pow2(levels + 1)
    ensures var q := Shr(leaf, j + 1);
            0 < q < Pow2(levels) && q !in Spine(leaf, j + 1, levels) && (q == 1 || q / 2 in Spine(leaf, j + 1, levels))
  {
    var q := Shr(leaf, j + 1);
    LeafAncestor(leaf, j + 1, levels);
    forall i | j + 1 < i <= levels
      ensures Shr(leaf, i) < q
    {
      ShrShr(leaf, j + 1, i - j - 1);
      ShrSmaller(q, i - j - 1);
    }
    if j + 1 < levels {
      ShrNext(leaf, j + 1);
      assert Shr(leaf, j + 2) in Spine(leaf, j + 1, levels);
    }
  }

  lemma GrewUp(tree: Tree, cur: set<nat>, read: set<nat>, keys: set<nat>, levels: nat, leaf: nat, j: nat, b: Bucket)
    requires Grown(tree, cur, read, keys, levels, leaf, j, leaf + 1) && j < levels
    requires Pow2(levels) <= leaf < Pow2(levels + 1) && Shr(leaf, j + 1) !in cur
    ensures var q := Shr(leaf, j + 1);
            Grown(tree[q := b], cur, read - {q}, keys - {2 * q, 2 * q + 1} + {q}, levels, leaf, j + 1, leaf + 1)
  {
    var q := Shr(leaf, j + 1);
    SpineNext(leaf, j, levels);
    SpineRest(leaf, j, levels);
    hide Spine, Shr;
    assert read - {q} == cur + Spine(leaf, j + 1, levels);
    KeysUp(keys, read, q);
    hide KeysOf;
  }

  lemma KeysUp(keys: set<nat>, read: set<nat>, q: nat)
    requires KeysOf(keys, read) && q > 0 && (q == 1 || q / 2 in read - {q})
    ensures KeysOf(keys - {2 * q, 2 * q + 1} + {q}, read - {q})
  {
    forall p
      ensures p / 2 == q <==> p == 2 * q || p == 2 * q + 1
    {
    }
  }

  // ---------------------------------------------------------------- climbing

  /** After j halvings from pos + 1, always even: p is above pos + 1, and p - 1 is above pos. */
  ghost predicate Climbed(pos: nat, p: nat, j: nat, levels: nat, toRead: seq<nat>) {
    && j <= levels && p >= 2
    && p == Shr(pos + 1, j) && pos + 1 == Shl(p, j) && Shr(pos, j) == p - 1
    && |toRead| == j
    && forall i :: 0 <= i < j ==> toRead[i] == Shr(pos + 1, i + 1)
  }

  lemma ClimbedNext(pos: nat, p: nat, j: nat, levels: nat, toRead: seq<nat>)
    requires Climbed(pos, p, j, levels, toRead) && p > 2 && p % 2 == 0 && pos < Pow2(levels + 1)
    ensures j < levels
    ensures Climbed(pos, p / 2, j + 1, levels, toRead + [p / 2])
  {
    ShlMonotone(2, p, j);
    ShlPow2(1, j);
    ShlDouble(p / 2, j);
    ShrNext(pos + 1, j);
    ShrNext(pos, j);
  }

  lemma {:induction false} ShrAgree(a: nat, b: nat, j: nat, i: nat)
    requires j <= i && Shr(a, j) == Shr(b, j)
    ensures Shr(a, i) == Shr(b, i)
    decreases i
  {
    if j < i {
      ShrAgree(a, b, j, i - 1);
    }
  }

  lemma SpineEqual(a: nat, b: nat, j: nat, levels: nat)
    requires forall i :: j < i <= levels ==> Shr(a, i) == Shr(b, i)
    ensures Spine(a, j, levels) == Spine(b, j, levels)
  {
    hide Shr;
  }

  /** Where climbing stops, the ancestors further up are those of the next leaf, too. */
  lemma ClimbedSpine(pos: nat, p: nat, j: nat, levels: nat, toRead: seq<nat>)
    requires Climbed(pos, p, j, levels, toRead) && (p <= 2 || p % 2 == 1)
    requires Pow2(levels) <= pos < Pow2(levels + 1)
    ensures Spine(pos, j, levels) == Spine(pos + 1, j, levels)
  {
    if p % 2 == 1 {
      ShrNext(pos, j);
      ShrNext(pos + 1, j);
      forall i | j < i <= levels
        ensures Shr(pos, i) == Shr(pos + 1, i)
      {
        ShrAgree(pos, pos + 1, j + 1, i);
      }
      hide Shr;
      SpineEqual(pos, pos + 1, j, levels);
    } else {
      ShlPow2(1, j);
      if j < levels {
        Pow2Monotone(j + 1, levels);
        assert false;
      }
    }
  }

  lemma ClimbedStart(pos: nat, levels: nat, toRead: seq<nat>)
    requires Pow2(levels) <= pos && levels > 0 && toRead == []
    ensures Climbed(pos, pos + 1, 0, levels, toRead)
  {
  }

  lemma ClimbedAt(pos: nat, p: nat, j: nat, levels: nat, toRead: seq<nat>)
    requires Climbed(pos, p, j, levels, toRead)
    ensures p >= 2 && p - 1 == Shr(pos, j)
  {
  }

  lemma ClimbedDone(tree: Tree, cur: set<nat>, read: set<nat>, keys: set<nat>, pos: nat, p: nat, levels: nat,
                    toRead: seq<nat>)
    requires Climbed(pos, p, |toRead|, levels, toRead) && (p <= 2 || p % 2 == 1)
    requires Pow2(levels) <= pos < Pow2(levels + 1)
    requires Grown(tree, cur, read, keys, levels, pos, |toRead|, pos + 1)
    ensures Grown(tree, cur, read, keys, levels, pos + 1, |toRead|, pos + 1)
    ensures forall i :: 0 <= i < |toRead| ==> toRead[i] == Shr(pos + 1, i + 1)
    ensures pos + 1 == Pow2(levels + 1) ==> |toRead| == levels
  {
    ClimbedSpine(pos, p, |toRead|, levels, toRead);
    if pos + 1 == Pow2(levels + 1) && |toRead| < levels {
      ShrPow2(levels + 1, |toRead|);
      Quarter(levels + 1 - |toRead|);
    }
  }

  lemma Quarter(k: nat)
    requires k >= 2
    ensures Pow2(k) > 2 && Pow2(k) % 2 == 0
  {
    assert Pow2(k) == 2 * Pow2(k - 1) && Pow2(k - 1) == 2 * Pow2(k - 2);
  }

  // ---------------------------------------------------------------- start and end

  lemma CoversClosed(tree: Tree, read: set<nat>, bound: nat)
    requires Covers(tree, read, bound)
    ensures forall p <- read :: p > 1 ==> p / 2 in read
  {
  }

  lemma GrowConsistent(f: Format, levels: nat, store: seq<Cell>, tree: Tree, keys: map<nat, Key>, stash: Stash,
                       cache: map<Ident, Bytes>, contents: map<Ident, Bytes>, more: seq<Cell>)
    requires Consistent(f, levels, store, tree, keys, stash, cache, contents)
    requires levels + 1 < 8 * f.idLen && |more| == Pow2(levels + 1)
    ensures Consistent(f, levels + 1, store + more, tree, keys, stash, cache, contents)
  {
    hide Holds;
    forall p | p in tree
      ensures LinkedAt(f, store + more, tree, keys, p)
    {
      assert LinkedAt(f, store, tree, keys, p);
    }
  }

  lemma GrowStart(tree: Tree, cur: set<nat>, keys: set<nat>, levels: nat)
    requires levels > 0 && Covers(tree, cur, Pow2(levels)) && KeysOf(keys, cur)
    ensures Grown(tree, cur, cur, keys, levels, Pow2(levels), levels, Pow2(levels))
  {
    assert Spine(Pow2(levels), levels, levels) == {};
  }

  lemma GrowEnd(tree: Tree, cur: set<nat>, read: set<nat>, keys: set<nat>, levels: nat, j: nat, pos: nat)
    requires Grown(tree, cur, read, keys, levels, pos, j, pos) && pos == Pow2(levels + 1)
    requires j == levels
    requires forall p <- cur :: p > 1 ==> p / 2 in cur
    ensures read == cur
    ensures Covers(tree, cur, Pow2(levels + 1)) && KeysOf(keys, cur)
  {
    assert Spine(pos, levels, levels) == {};
    Pow2Monotone(levels, levels + 1);
  }

  lemma {:induction false} ShrPow2(levels: nat, i: nat)
    requires i <= levels
    ensures Shr(Pow2(levels), i) == Pow2(levels - i)
    decreases i
  {
    if i > 0 {
      ShrPow2(levels, i - 1);
    }
  }

  lemma TracedGrow(n: nat, levels: nat, open: seq<Ident>, depths: seq<nat>, read: set<nat>)
    requires TracedBy(n, levels, open, depths, read) && levels + 1 < n
    ensures TracedBy(n, levels + 1, open, depths, read)
  {
  }
}

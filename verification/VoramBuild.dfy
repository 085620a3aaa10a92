/** Writing all buckets of a new vORAM from the last leaf to the first, each inner bucket as soon as
    its children are there.  `levels` is the depth L of the leaves. */
module VoramBuild {

  import opened Bits
  import opened VoramCodec
  import opened VoramTree
  import opened VoramSteps

  /** The leaves from `pos` on are written, and so is every inner position whose children are,
      but for the one, `next`, that is written next. */
  ghost predicate Filled(tree: set<nat>, levels: nat, pos: nat, next: nat) {
    && (forall p <- tree :: 0 < p < Pow2(levels + 1))
    && (forall p :: Pow2(levels) <= p < Pow2(levels + 1) ==> (p in tree <==> p >= pos))
    && (forall p :: 0 < p < Pow2(levels) && p != next ==> (p in tree <==> 2 * p in tree && 2 * p + 1 in tree))
    && next !in tree
  }

  /** The held keys are those of the buckets whose parents are not written. */
  ghost predicate KeysTop(keys: set<nat>, tree: set<nat>) {
    forall p :: p in keys <==> p in tree && p / 2 !in tree
  }

  ghost function Count(keys: set<nat>): nat {
    |keys|
  }

  /** The largest number of keys so far. */
  ghost function Most(peak: nat, keys: set<nat>): nat {
    if Count(keys) > peak then Count(keys) else peak
  }

  /** `p` is j levels above the leaves. */
  ghost predicate AtHeight(p: nat, j: nat, levels: nat) {
    j <= levels && Pow2(levels - j) <= p < Pow2(levels - j + 1)
  }

  lemma AtHeightHalf(p: nat, j: nat, levels: nat)
    requires AtHeight(p, j, levels)
    ensures j < levels ==> AtHeight(p / 2, j + 1, levels)
    ensures j == levels ==> p == 1
    ensures 0 < p < Pow2(levels + 1)
    ensures j > 0 ==> p < Pow2(levels)
  {
    Pow2Monotone(levels - j + 1, levels + 1);
    if j > 0 {
      Pow2Monotone(levels - j + 1, levels);
    }
  }

  lemma FilledClosed(tree: Tree, levels: nat, pos: nat, next: nat)
    requires Filled(tree.Keys, levels, pos, next)
    ensures ClosedBelow(tree, Pow2(levels + 1))
  {
    forall c | 2 <= c < Pow2(levels + 1) && c / 2 in tree
      ensures c in tree
    {
      var p := c / 2;
      assert p in tree.Keys && 0 < p < Pow2(levels) && p != next;
      assert 2 * p in tree.Keys && 2 * p + 1 in tree.Keys;
      assert c == 2 * p || c == 2 * p + 1;
    }
  }

  /** A position all of whose leaves are written is written. */
  lemma {:induction false} FullSubtree(tree: set<nat>, levels: nat, pos: nat, next: nat, p: nat, j: nat)
    requires Filled(tree, levels, pos, next)
    requires AtHeight(p, j, levels) && p > next && Shl(p, j) >= pos
    ensures p in tree
    decreases j
  {
    AtHeightHalf(p, j, levels);
    if j > 0 {
      ShlDouble(p, j - 1);
      ShlMonotone(2 * p, 2 * p + 1, j - 1);
      FullSubtree(tree, levels, pos, next, 2 * p, j - 1);
      FullSubtree(tree, levels, pos, next, 2 * p + 1, j - 1);
    }
  }

  lemma KeysPut(keys: set<nat>, tree: set<nat>, q: nat)
    requires KeysTop(keys, tree) && q > 0 && q !in tree && q / 2 !in tree
    ensures KeysTop(keys - {2 * q, 2 * q + 1} + {q}, tree + {q})
    ensures 2 * q !in tree && 2 * q + 1 !in tree ==> |keys - {2 * q, 2 * q + 1} + {q}| == |keys| + 1
    ensures 2 * q in tree && 2 * q + 1 in tree ==>
              {2 * q, 2 * q + 1} <= keys && |keys - {2 * q, 2 * q + 1} + {q}| == |keys| - 1
  {
    assert (2 * q) / 2 == q && (2 * q + 1) / 2 == q;
    forall p
      ensures p / 2 == q <==> p == 2 * q || p == 2 * q + 1
    {
    }
    KeysCount(keys, q, 2 * q, 2 * q + 1);
  }

  lemma KeysCount(keys: set<nat>, q: nat, c: nat, d: nat)
    requires q !in keys && c != d && c != q && d != q
    ensures c !in keys && d !in keys ==> |keys - {c, d} + {q}| == |keys| + 1
    ensures c in keys && d in keys ==> |keys - {c, d} + {q}| == |keys| - 1
  {
    if c !in keys && d !in keys {
      assert keys - {c, d} == keys;
    }
    if c in keys && d in keys {
      assert keys - {c, d} + {q} == keys - {c} - {d} + {q};
      assert |keys - {c}| == |keys| - 1;
      assert |keys - {c} - {d}| == |keys| - 2;
    }
  }

  lemma FilledPut(tree: set<nat>, levels: nat, pos: nat, q: nat)
    requires Filled(tree, levels, pos, q) && 0 < q < Pow2(levels)
    requires 2 * q in tree && 2 * q + 1 in tree && q / 2 !in tree
    ensures Filled(tree + {q}, levels, pos, q / 2)
  {
    forall p | 0 < p < Pow2(levels) && p != q / 2
      ensures p in tree + {q} <==> 2 * p in tree + {q} && 2 * p + 1 in tree + {q}
    {
      assert 2 * p != q && 2 * p + 1 != q;
      assert p != q ==> (p in tree <==> 2 * p in tree && 2 * p + 1 in tree);
    }
  }

  lemma FilledPutLeaf(tree: set<nat>, levels: nat, pos: nat)
    requires Filled(tree, levels, pos + 1, 0) && Pow2(levels) <= pos < Pow2(levels + 1)
    requires pos / 2 !in tree
    ensures Filled(tree + {pos}, levels, pos, pos / 2)
  {
    forall p | 0 < p < Pow2(levels) && p != pos / 2
      ensures p in tree + {pos} <==> 2 * p in tree + {pos} && 2 * p + 1 in tree + {pos}
    {
      assert 2 * p != pos && 2 * p + 1 != pos && p != pos;
      assert p in tree <==> 2 * p in tree && 2 * p + 1 in tree;
    }
  }

  lemma FilledLeaf(tree: Tree, levels: nat, pos: nat, keys: set<nat>)
    requires Filled(tree.Keys, levels, pos + 1, 0) && KeysTop(keys, tree.Keys)
    requires Pow2(levels) <= pos < Pow2(levels + 1)
    ensures Uncovered(tree, pos) && BitLength(pos) == levels + 1
    ensures Filled(tree.Keys + {pos}, levels, pos, pos / 2)
    ensures KeysTop(keys - {2 * pos, 2 * pos + 1} + {pos}, tree.Keys + {pos})
    ensures Count(keys - {2 * pos, 2 * pos + 1} + {pos}) == Count(keys) + 1
  {
    FilledClosed(tree, levels, pos + 1, 0);
    UncoveredAll(tree, Pow2(levels + 1), pos);
    UncoveredSelf(tree, pos);
    BitLengthUnique(pos, levels);
    FilledPutLeaf(tree.Keys, levels, pos);
    assert 2 * pos !in tree.Keys && 2 * pos + 1 !in tree.Keys;
    hide Filled, KeysTop, Uncovered, ClosedBelow;
    KeysPut(keys, tree.Keys, pos);
  }

  lemma FilledInner(tree: Tree, levels: nat, pos: nat, q: nat, j: nat, keys: set<nat>)
    requires Filled(tree.Keys, levels, pos, q) && KeysTop(keys, tree.Keys)
    requires 0 < j && AtHeight(q, j, levels)
    requires 2 * q in tree && pos == Shl(2 * q, j - 1)
    ensures 0 < q < Pow2(levels) && Uncovered(tree, q)
    ensures {2 * q, 2 * q + 1} <= keys
    ensures Filled(tree.Keys + {q}, levels, pos, q / 2)
    ensures KeysTop(keys - {2 * q, 2 * q + 1} + {q}, tree.Keys + {q})
    ensures Count(keys - {2 * q, 2 * q + 1} + {q}) == Count(keys) - 1
  {
    hide Uncovered, ClosedBelow, KeysTop, Filled, Shl;
    AtHeightHalf(q, j, levels);
    ShlMonotone(2 * q, 2 * q + 1, j - 1);
    FullSubtree(tree.Keys, levels, pos, q, 2 * q + 1, j - 1);
    FilledClosed(tree, levels, pos, q);
    NextOut(tree.Keys, levels, pos, q);
    UncoveredAll(tree, Pow2(levels + 1), q);
    UncoveredSelf(tree, q);
    FilledPut(tree.Keys, levels, pos, q);
    KeysPut(keys, tree.Keys, q);
  }

  lemma NextOut(tree: set<nat>, levels: nat, pos: nat, next: nat)
    requires Filled(tree, levels, pos, next)
    ensures next !in tree
  {
  }

  /** At an odd position the sibling before is not written yet, so nothing is next. */
  lemma FilledDone(tree: Tree, levels: nat, pos: nat, p: nat, j: nat)
    requires Filled(tree.Keys, levels, pos, p / 2) && AtHeight(p, j, levels)
    requires Pow2(levels) <= pos && pos == Shl(p, j) && p % 2 == 1
    requires p > 1 ==> Shr(pos - 1, j) == p - 1
    ensures Filled(tree.Keys, levels, pos, 0)
  {
    if p > 1 {
      FilledSibling(tree, levels, pos, p, j);
      assert 2 * (p / 2) == p - 1;
    }
  }

  lemma FilledSibling(tree: Tree, levels: nat, pos: nat, p: nat, j: nat)
    requires Filled(tree.Keys, levels, pos, p / 2) && AtHeight(p, j, levels)
    requires Pow2(levels) <= pos && pos == Shl(p, j) && p % 2 == 1 && p > 1
    requires Shr(pos - 1, j) == p - 1
    ensures p - 1 !in tree
  {
    AtHeightHalf(p, j, levels);
    assert Pow2(levels - j) == 2 * Pow2(levels - j - 1);
    ShlMonotone(Pow2(levels - j), p, j);
    ShlPow2(levels - j, j);
    ShlBelow(p, j, levels);
    LeafBefore(tree.Keys, levels, pos, p / 2);
    FilledClosed(tree, levels, pos, p / 2);
    hide Filled, Shl, Shr, ClosedBelow;
    UncoveredUp(tree, Pow2(levels + 1), pos - 1, j);
  }

  lemma LeafBefore(tree: set<nat>, levels: nat, pos: nat, next: nat)
    requires Filled(tree, levels, pos, next) && Pow2(levels) < pos < Pow2(levels + 1)
    ensures pos - 1 !in tree
  {
  }

  lemma ShlBelow(p: nat, j: nat, levels: nat)
    requires AtHeight(p, j, levels)
    ensures Shl(p, j) < Pow2(levels + 1)
  {
    ShlMonotone(p, Pow2(levels - j + 1), j);
    ShlPow2(levels - j + 1, j);
  }

  lemma FilledAll(tree: Tree, levels: nat, keys: set<nat>)
    requires Filled(tree.Keys, levels, Pow2(levels), 0) && KeysTop(keys, tree.Keys)
    ensures Covers(tree, {}, Pow2(levels + 1))
    ensures KeysOf(keys, {})
  {
    forall p: nat | 0 < p < Pow2(levels + 1)
      ensures p in tree
    {
      PositionBits(p, levels);
      var j := levels + 1 - BitLength(p);
      if Pow2(levels - j) < p {
        ShlMonotone(Pow2(levels - j), p, j);
      }
      ShlPow2(levels - j, j);
      FullSubtree(tree.Keys, levels, Pow2(levels), 0, p, j);
    }
    forall p: nat | p > 1
      ensures p !in keys
    {
      assert p in tree ==> p / 2 in tree;
    }
  }

  /** Counting the keys like carries of a binary counter. */
  lemma CountStart(m: nat, levels: nat)
    requires 0 < m <= Pow2(levels)
    ensures PopCount(m - 1) <= levels
  {
    PopCountBound(m - 1, levels);
  }

  lemma PopCountDouble(x: nat)
    ensures PopCount(2 * x) == PopCount(x)
    ensures x > 0 ==> PopCount(2 * x - 1) == PopCount(x - 1) + 1
    ensures PopCount(2 * x + 1) == PopCount(x) + 1
  {
    assert (2 * x) / 2 == x && (2 * x) % 2 == 0;
    if x > 0 {
      assert (2 * x - 1) / 2 == x - 1 && (2 * x - 1) % 2 == 1;
    }
  }

  // ---------------------------------------------------------------- climbing

  /** `p` is the ancestor of leaf `pos` j levels up, and `pos` is the first of its leaves. */
  ghost predicate Climbing(levels: nat, pos: nat, p: nat, j: nat) {
    && Pow2(levels) <= pos < Pow2(levels + 1)
    && AtHeight(p, j, levels)
    && pos == Shl(p, j)
    && (p > 1 ==> Shr(pos - 1, j) == p - 1)
  }

  /** How many positions j levels above the leaves there are from p on. */
  ghost function Leaves(levels: nat, p: nat, j: nat): (m: nat)
    ensures AtHeight(p, j, levels) ==> m > 0 && m + p == Pow2(levels - j + 1)
  {
    if j <= levels && p < Pow2(levels - j + 1) then Pow2(levels - j + 1) - p else 0
  }

  lemma ClimbStart(levels: nat, pos: nat)
    requires Pow2(levels) <= pos < Pow2(levels + 1)
    ensures Climbing(levels, pos, pos, 0)
    ensures Leaves(levels, pos, 0) == Pow2(levels + 1) - pos
  {
  }

  lemma LeavesHalf(levels: nat, p: nat, j: nat)
    requires AtHeight(p, j, levels) && p % 2 == 0
    ensures j < levels && Leaves(levels, p, j) == 2 * Leaves(levels, p / 2, j + 1) > 0
  {
    AtHeightHalf(p, j, levels);
    assert Pow2(levels - j + 1) == 2 * Pow2(levels - j);
  }

  lemma ClimbNext(levels: nat, pos: nat, p: nat, j: nat)
    requires Climbing(levels, pos, p, j) && p % 2 == 0
    ensures Climbing(levels, pos, p / 2, j + 1)
    ensures pos == Shl(2 * (p / 2), j)
    ensures Leaves(levels, p / 2, j + 1) * 2 == Leaves(levels, p, j)
    ensures PopCount(Leaves(levels, p / 2, j + 1)) == PopCount(Leaves(levels, p, j))
    ensures PopCount(Leaves(levels, p, j) - 1) == PopCount(Leaves(levels, p / 2, j + 1) - 1) + 1
  {
    hide PopCount, Pow2, Leaves, AtHeight;
    AtHeightHalf(p, j, levels);
    LeavesHalf(levels, p, j);
    ShlDouble(p / 2, j);
    PopCountDouble(Leaves(levels, p / 2, j + 1));
  }

  lemma ClimbDone(tree: Tree, levels: nat, pos: nat, p: nat, j: nat)
    requires Climbing(levels, pos, p, j) && p % 2 == 1
    requires Filled(tree.Keys, levels, pos, p / 2)
    ensures Filled(tree.Keys, levels, pos, 0)
    ensures PopCount(Leaves(levels, p, j)) == PopCount(Leaves(levels, p, j) - 1) + 1
  {
    FilledDone(tree, levels, pos, p, j);
    var m := Leaves(levels, p, j);
    if j == levels {
      AtHeightHalf(p, j, levels);
      assert m == 1;
    } else {
      assert m == 2 * (m / 2) + 1;
      PopCountDouble(m / 2);
      PopCountDouble(m / 2);
    }
  }

  /** Before anything is written. */
  lemma BuildStart(f: Format, levels: nat, store: seq<Cell>, tree: Tree, keys: map<nat, Key>, stash: Stash,
                   cache: map<Ident, Bytes>, contents: map<Ident, Bytes>)
    requires f.Valid() && levels < 8 * f.idLen && |store| == Pow2(levels + 1) - 1
    requires tree == map[] && keys == map[] && stash == map[] && cache == map[] && contents == map[]
    ensures Consistent(f, levels, store, tree, keys, stash, cache, contents)
    ensures Filled(tree.Keys, levels, Pow2(levels + 1), 0) && KeysTop(keys.Keys, tree.Keys)
    ensures Count(keys.Keys) == PopCount(0) == 0
  {
  }
}

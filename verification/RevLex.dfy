/** The order in which the deterministic Path ORAM evicts paths: leaves by their numbers' bits reversed. */
module RevLex {

  import opened Bits
  import opened PathOramTree

  /** The lowest `bits` bits of x, reversed. */
  function Rev(x: nat, bits: nat): (r: nat)
    ensures r < Pow2(bits)
  {
    if bits == 0 then 0 else (if x % 2 == 1 then Pow2(bits - 1) else 0) + Rev(x / 2, bits - 1)
  }

  lemma {:induction false} ShlPow(x: nat, s: nat)
    ensures Shl(x, s) == x * Pow2(s)
  {
    if s > 0 {
      ShlPow(x, s - 1);
      assert 2 * (x * Pow2(s - 1)) == x * (2 * Pow2(s - 1));
    }
  }

  /** A bit in front does not change the bits behind it. */
  lemma FrontBit(bits: nat, rest: nat, k: nat)
    requires k < bits
    ensures k < bits - 1 ==> Shr(Pow2(bits - 1) + rest, k) % 2 == Shr(rest, k) % 2
    ensures k == bits - 1 && rest < Pow2(bits - 1) ==> Shr(Pow2(bits - 1) + rest, k) == 1 && Shr(rest, k) == 0
  {
    hide Shr;
    ShrAbove(bits, rest, k);
    if k == bits - 1 {
      ShlPow(0, k);
      ShlPow2(0, k);
      ShrInterval(rest, 0, k);
    } else {
      assert Pow2(bits - 1 - k) == 2 * Pow2(bits - 2 - k);
    }
  }

  /** Bit k of the reversal is bit k of the number, counted from the other end. */
  lemma {:induction false} RevBit(x: nat, bits: nat, k: nat)
    requires k < bits
    ensures Shr(Rev(x, bits), k) % 2 == Shr(x, bits - 1 - k) % 2
    decreases bits
  {
    hide Pow2;
    FrontBit(bits, Rev(x / 2, bits - 1), k);
    if k < bits - 1 {
      RevBit(x / 2, bits - 1, k);
      ShrFirst(x, bits - 1 - k);
    }
  }

  /** Only the lowest bits matter. */
  lemma {:induction false} RevMod(x: nat, bits: nat)
    ensures Rev(x % Pow2(bits), bits) == Rev(x, bits)
  {
    if bits > 0 {
      var m := Pow2(bits - 1);
      var q, r := x / (2 * m), x % (2 * m);
      assert x == (2 * m) * q + r;
      ModHalf(x, m);
      RevMod(x / 2, bits - 1);
    }
  }

  lemma ModHalf(x: nat, m: nat)
    requires m > 0
    ensures (x % (2 * m)) % 2 == x % 2
    ensures (x % (2 * m)) / 2 == (x / 2) % m
  {
    var q, r := x / (2 * m), x % (2 * m);
    assert x == 2 * (m * q) + r;
    assert x / 2 == m * q + r / 2;
    ModUnique(x / 2, m, q, r / 2);
  }

  lemma MulStep(m: nat, a: nat, b: nat)
    requires a < b
    ensures m * a + m <= m * b
  {
    assert m * (a + 1) <= m * b;
  }

  lemma ModUnique(x: nat, m: nat, q: nat, r: nat)
    requires x == m * q + r && r < m
    ensures x % m == r
  {
    var q', r' := x / m, x % m;
    assert m * q' + r' == m * q + r;
    if q < q' {
      MulStep(m, q, q');
    } else if q' < q {
      MulStep(m, q', q);
    }
  }

  lemma {:induction false} RevZero(bits: nat)
    ensures Rev(0, bits) == 0
  {
    if bits > 0 {
      RevZero(bits - 1);
    }
  }

  /** Reversing one bit fewer drops the last bit of the result. */
  lemma {:induction false} RevShorter(x: nat, bits: nat)
    requires bits > 0
    ensures Rev(x, bits) / 2 == Rev(x, bits - 1)
  {
    if bits > 1 {
      RevShorter(x / 2, bits - 1);
      assert Pow2(bits - 1) == 2 * Pow2(bits - 2);
    }
  }

  /** The first `level` bits of the result are those of the reversal of `level` bits. */
  lemma {:induction false} RevPrefix(x: nat, bits: nat, s: nat)
    requires s <= bits
    ensures Shr(Rev(x, bits), s) == Rev(x, bits - s)
    decreases s
  {
    if s > 0 {
      RevPrefix(x, bits, s - 1);
      RevShorter(x, bits - s + 1);
    }
  }

  /** The last bit of the result. */
  lemma {:induction false} RevLow(x: nat, y: nat, bits: nat)
    requires y < Pow2(bits)
    ensures Rev(y, bits + 1) == 2 * Rev(y, bits)
    ensures Rev(Pow2(bits) + y, bits + 1) == 2 * Rev(y, bits) + 1
  {
    if bits > 0 {
      assert Pow2(bits) == 2 * Pow2(bits - 1);
      RevLow(x, y / 2, bits - 1);
      assert (Pow2(bits) + y) / 2 == Pow2(bits - 1) + y / 2;
      assert (Pow2(bits) + y) % 2 == y % 2;
    }
  }

  /** Reversing twice gives the number back, so reversing is a permutation of the leaves. */
  lemma {:induction false} RevRev(x: nat, bits: nat)
    requires x < Pow2(bits)
    ensures Rev(Rev(x, bits), bits) == x
  {
    if bits > 0 {
      RevRev(x / 2, bits - 1);
      RevLow(x, Rev(x / 2, bits - 1), bits - 1);
    }
  }

  // ---------------------------------------------------------------- consecutive paths

  /** Numbers with the same reversed bits are far apart. */
  lemma {:induction false} RevApart(x: nat, y: nat, bits: nat)
    requires y < x && Rev(x, bits) == Rev(y, bits)
    ensures x - y >= Pow2(bits)
  {
    if bits > 0 {
      assert x % 2 == y % 2;
      assert x / 2 - y / 2 > 0;
      RevApart(x / 2, y / 2, bits - 1);
    }
  }

  /** Among any 2^bits consecutive numbers there is one with given reversed bits. */
  lemma {:induction false} RevFind(start: nat, bits: nat, v: nat) returns (g: nat)
    requires v < Pow2(bits)
    ensures start <= g < start + Pow2(bits) && Rev(g, bits) == v
  {
    if bits == 0 {
      g := start;
    } else {
      var b := if v >= Pow2(bits - 1) then 1 else 0;
      var from: nat := if start < b then 0 else (start - b + 1) / 2;
      var h := RevFind(from, bits - 1, v - b * Pow2(bits - 1));
      g := 2 * h + b;
      assert g / 2 == h && g % 2 == b;
    }
  }

  /** The bucket at a level that the G-th evicted path goes through; n is the number of levels. */
  function Evicted(n: nat, g: nat, level: nat): nat
    requires level < n
  {
    P(n, Rev(g, n - 1), level)
  }

  lemma EvictedBucket(n: nat, g: nat, level: nat)
    requires level < n
    ensures Evicted(n, g, level) == Pow2(level) - 1 + Rev(g, level)
  {
    RevPrefix(g, n - 1, n - 1 - level);
  }

  /** Any 2^level consecutive evictions go through each bucket of the level exactly once. */
  lemma EachBucketOnce(n: nat, start: nat, level: nat, bucket: nat)
    requires level < n && Pow2(level) - 1 <= bucket < Pow2(level + 1) - 1
    ensures exists g ::
              && start <= g < start + Pow2(level) && Evicted(n, g, level) == bucket
              && forall h :: start <= h < start + Pow2(level) && Evicted(n, h, level) == bucket ==> h == g
  {
    hide Evicted, Rev;
    var g := RevFind(start, level, bucket + 1 - Pow2(level));
    EvictedBucket(n, g, level);
    forall h | start <= h < start + Pow2(level) && Evicted(n, h, level) == bucket
      ensures h == g
    {
      EvictedBucket(n, h, level);
      if h < g {
        RevApart(g, h, level);
      } else if g < h {
        RevApart(h, g, level);
      }
    }
    assert Evicted(n, g, level) == bucket;
  }

  // ---------------------------------------------------------------- the schedule

  class EvictionSchedule {
    const numLevels: nat
    const numLeaves: nat
    /** The number of paths evicted so far. */
    var g: nat

    ghost predicate Valid()
      reads this
    {
      numLevels > 0 && numLeaves == Pow2(numLevels - 1)
    }

    constructor (numLevels: nat)
      requires numLevels > 0
      ensures Valid() && this.numLevels == numLevels && g == 0
    {
      this.numLevels, numLeaves, g := numLevels, Pow2(numLevels - 1), 0;
    }

    /** The lowest bits of g in reverse order, `bitsLength` bits long. */
    method ReverseBits(g: nat, bitsLength: nat) returns (reverse: nat)
      requires Valid() && bitsLength == numLevels - 1
      ensures reverse == Rev(g, bitsLength) < numLeaves
    {
      hide Shl, Rev;
      var gMod: nat := g % numLeaves;
      ShlPow(0, bitsLength);
      var bits: nat := bitsLength;
      RevMod(g, bitsLength);
      reverse := 0;
      while gMod != 0
        invariant bits <= bitsLength && gMod < Pow2(bits)
        invariant Shl(reverse, bits) + Rev(gMod, bits) == Rev(g, bitsLength)
        decreases gMod
      {
        ShiftIn(reverse, gMod, bits);
        reverse := 2 * reverse;
        reverse := reverse + gMod % 2;
        gMod := gMod / 2;
        bits := bits - 1;
      }
      RevZero(bits);
      reverse := Shl(reverse, bits);
    }

    /** The leaf whose path is evicted next. */
    method NextLeaf() returns (leaf: nat)
      requires Valid()
      modifies this`g
      ensures g == old(g) + 1
      ensures leaf == Rev(old(g), numLevels - 1) < numLeaves
      ensures forall level :: 0 <= level < numLevels ==> P(numLevels, leaf, level) == Evicted(numLevels, old(g), level)
    {
      leaf := ReverseBits(g, numLevels - 1);
      g := g + 1;
    }
  }

  /** One more bit goes from the number into its reversal. */
  lemma ShiftIn(r: nat, x: nat, bits: nat)
    requires 0 < x < Pow2(bits)
    ensures bits > 0 && x / 2 < Pow2(bits - 1)
    ensures Shl(2 * r + x % 2, bits - 1) + Rev(x / 2, bits - 1) == Shl(r, bits) + Rev(x, bits)
  {
    ShlPow(2 * r + x % 2, bits - 1);
    ShlPow(r, bits);
    ReverseStep(r, x % 2, Pow2(bits - 1));
  }

  lemma ReverseStep(r: nat, b: nat, m: nat)
    requires b < 2
    ensures (2 * r + b) * m == r * (2 * m) + if b == 1 then m else 0
  {
    assert (2 * r + b) * m == 2 * r * m + b * m;
  }
}

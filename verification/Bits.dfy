/** Powers of two, shifts and the number of binary digits of a number. */
module Bits {

  function Pow2(k: nat): (r: nat)
    ensures r > 0
  {
    if k == 0 then 1 else 2 * Pow2(k - 1)
  }

  /** x << s. */
  function Shl(x: nat, s: nat): nat {
    if s == 0 then x else 2 * Shl(x, s - 1)
  }

  /** x >> s. */
  function Shr(x: nat, s: nat): nat {
    if s == 0 then x else Shr(x, s - 1) / 2
  }

  /** The number of binary digits. */
  function BitLength(x: nat): (r: nat)
    ensures x < Pow2(r)
    ensures x > 0 ==> r > 0 && Pow2(r - 1) <= x
    ensures x == 0 ==> r == 0
  {
    if x == 0 then 0 else 1 + BitLength(x / 2)
  }

  lemma {:induction false} Pow2Monotone(a: nat, b: nat)
    requires a <= b
    ensures Pow2(a) <= Pow2(b)
    ensures a < b ==> 2 * Pow2(a) <= Pow2(b)
  {
    if a < b {
      Pow2Monotone(a, b - 1);
    }
  }

  lemma {:induction false} ShrShr(x: nat, a: nat, b: nat)
    ensures Shr(Shr(x, a), b) == Shr(x, a + b)
  {
    if b > 0 {
      ShrShr(x, a, b - 1);
    }
  }

  /** A number of `bits` binary digits shifted right by s has s digits fewer. */
  lemma {:induction false} ShrRange(x: nat, bits: nat, s: nat)
    requires s < bits
    requires Pow2(bits - 1) <= x < Pow2(bits)
    ensures Pow2(bits - 1 - s) <= Shr(x, s) < Pow2(bits - s)
  {
    if s > 0 {
      ShrRange(x, bits, s - 1);
    }
  }

  /** The numbers that start with the digits of p, s digits longer, are an interval. */
  lemma {:induction false} ShrInterval(x: nat, p: nat, s: nat)
    ensures Shr(x, s) == p <==> Shl(p, s) <= x < Shl(p + 1, s)
    decreases s
  {
    if s > 0 {
      ShrInterval(x, 2 * p, s - 1);
      ShrInterval(x, 2 * p + 1, s - 1);
      ShlDouble(p, s - 1);
      ShlDouble(p + 1, s - 1);
      ShlMonotone(2 * p, 2 * p + 1, s - 1);
      ShlMonotone(2 * p + 1, 2 * p + 2, s - 1);
    }
  }

  lemma {:induction false} ShlDouble(p: nat, s: nat)
    ensures Shl(2 * p, s) == 2 * Shl(p, s)
  {
    if s > 0 {
      ShlDouble(p, s - 1);
    }
  }

  lemma {:induction false} ShlMonotone(p: nat, q: nat, s: nat)
    requires p < q
    ensures Shl(p, s) < Shl(q, s)
  {
    if s > 0 {
      ShlMonotone(p, q, s - 1);
    }
  }

  lemma {:induction false} ShlPow2(k: nat, s: nat)
    ensures Shl(Pow2(k), s) == Pow2(k + s)
  {
    if s > 0 {
      ShlPow2(k, s - 1);
    }
  }

  lemma BitLengthUnique(x: nat, k: nat)
    requires Pow2(k) <= x < Pow2(k + 1)
    ensures BitLength(x) == k + 1
  {
    var r := BitLength(x);
    if r < k + 1 {
      Pow2Monotone(r, k);
    } else if r > k + 1 {
      Pow2Monotone(k + 1, r - 1);
    }
  }

  /** The bits that are one. */
  function PopCount(x: nat): (r: nat) {
    if x == 0 then 0 else x % 2 + PopCount(x / 2)
  }

  lemma {:induction false} PopCountBound(x: nat, k: nat)
    requires x < Pow2(k)
    ensures PopCount(x) <= k
  {
    if x > 0 {
      PopCountBound(x / 2, k - 1);
    }
  }

  lemma DivideBack(g: nat, p: nat)
    requires p > 0
    ensures g * p / p == g
  {
    var q, r := g * p / p, g * p % p;
    assert g * p == q * p + r;
    assert (g - q) * p == r;
    Between(g - q, p);
  }

  lemma Between(d: int, p: nat)
    requires p > 0
    ensures 0 <= d * p < p ==> d == 0
  {
    if d >= 1 {
      assert d * p >= p;
    } else if d <= -1 {
      assert d * p <= -1 * p;
    }
  }

  lemma {:induction false} ShrFirst(x: nat, s: nat)
    requires s > 0
    ensures Shr(x, s) == Shr(x / 2, s - 1)
  {
    if s > 1 {
      ShrFirst(x, s - 1);
    }
  }
}

/** The links of a skip list as a table.  Row 0 is the head and row j the j-th node; lens[r] is the number of
    links of row r.  A link of row r at level l leads to the next row that has that level. */
module SkipRows {

  import opened Bits

  // ---------------------------------------------------------------- heights

  /** The number of zeros at the end of x, which has `width` bits. */
  function Height(x: nat, width: nat): (h: nat)
    ensures h <= width
  {
    if width == 0 || x % 2 == 1 then 0 else 1 + Height(x / 2, width - 1)
  }

  /** The lowest bit that is set, x & -x. */
  function LowestSet(x: nat): nat {
    if x == 0 then 0 else if x % 2 == 1 then 1 else 2 * LowestSet(x / 2)
  }

  lemma {:induction false} LowestSetHeight(x: nat, width: nat)
    requires 0 < x < Pow2(width)
    ensures BitLength(LowestSet(x)) == Height(x, width) + 1
    ensures LowestSet(x) > 0 && Height(x, width) < width
  {
    if x % 2 == 0 {
      LowestSetHeight(x / 2, width - 1);
      assert (2 * LowestSet(x / 2)) / 2 == LowestSet(x / 2);
    } else {
      assert BitLength(1) == 1 + BitLength(0);
    }
  }

  /** A number is an odd multiple of its lowest bit that is set. */
  lemma {:induction false} OddPart(x: nat) returns (q: nat)
    requires x > 0
    ensures LowestSet(x) > 0 && q % 2 == 1 && x == q * Pow2(BitLength(LowestSet(x)) - 1)
  {
    if x % 2 == 0 {
      q := OddPart(x / 2);
      assert (2 * LowestSet(x / 2)) / 2 == LowestSet(x / 2);
      Twice(x, q, Pow2(BitLength(LowestSet(x / 2)) - 1));
    } else {
      q := x;
      assert BitLength(1) == 1 + BitLength(0);
    }
  }

  lemma Twice(x: nat, q: nat, p: nat)
    requires x % 2 == 0 && x / 2 == q * p
    ensures x == q * (2 * p)
  {
  }

  /** The position of the lowest bit of a byte. */
  lemma LowBit(b: nat)
    requires 0 < b < 256
    ensures LowestSet(b) > 0
    ensures var t := BitLength(LowestSet(b)) - 1; 0 <= t < 8 && b % Pow2(t) == 0 && b / Pow2(t) % 2 == 1
  {
    hide LowestSet, Height, BitLength;
    var q := OddPart(b);
    assert Pow2(8) == 256 by {
      assert Pow2(4) == 16;
      assert Pow2(8) == 16 * Pow2(4);
    }
    LowestSetHeight(b, 8);
    OddMultiple(b, q, Pow2(BitLength(LowestSet(b)) - 1));
  }

  lemma OddMultiple(b: nat, q: nat, p: nat)
    requires p > 0 && b == q * p && q % 2 == 1
    ensures b % p == 0 && b / p % 2 == 1
  {
    DivideBack(q, p);
    var d, r := b / p, b % p;
    assert d == q;
    assert b == d * p + r;
  }

  /** The zeros at the end of a number, one part of its bits at a time. */
  lemma {:induction false} HeightSplit(x: nat, low: nat, width: nat)
    requires low <= width
    ensures Height(x, width) == if Height(x, low) < low then Height(x, low) else low + Height(Shr(x, low), width - low)
    decreases low
  {
    if low > 0 && x % 2 == 0 {
      HeightSplit(x / 2, low - 1, width - 1);
      ShrFirst(x, low);
    }
  }

  lemma {:induction false} HeightLow(x: nat, y: nat, low: nat)
    ensures Height(x + Shl(y, low), low) == Height(x, low)
    decreases low
  {
    if low > 0 {
      assert (x + Shl(y, low)) / 2 == x / 2 + Shl(y, low - 1);
      HeightLow(x / 2, y, low - 1);
    }
  }

  lemma {:induction false} HeightZero(width: nat)
    ensures Height(0, width) == width
  {
    if width > 0 {
      HeightZero(width - 1);
    }
  }

  // ---------------------------------------------------------------- the next row

  /** The first row after r that has level l, or the number of rows. */
  function Next(lens: seq<nat>, r: nat, l: nat): (s: nat)
    requires r < |lens|
    ensures r < s <= |lens|
    ensures s < |lens| ==> lens[s] > l
    ensures forall t :: r < t < s ==> lens[t] <= l
    decreases |lens| - r
  {
    if r + 1 == |lens| || lens[r + 1] > l then r + 1 else Next(lens, r + 1, l)
  }

  lemma NextIs(lens: seq<nat>, r: nat, l: nat, s: nat)
    requires r < s <= |lens|
    requires s < |lens| ==> lens[s] > l
    requires forall t :: r < t < s ==> lens[t] <= l
    ensures Next(lens, r, l) == s
  {
    var n := Next(lens, r, l);
  }

  function Insert<T>(s: seq<T>, q: nat, x: T): seq<T>
    requires q <= |s|
  {
    s[..q] + [x] + s[q..]
  }

  function Remove<T>(s: seq<T>, q: nat): seq<T>
    requires q < |s|
  {
    s[..q] + s[q + 1..]
  }

  lemma InsertAt<T>(s: seq<T>, q: nat, x: T)
    requires q <= |s|
    ensures |Insert(s, q, x)| == |s| + 1 && Insert(s, q, x)[q] == x
    ensures forall r :: 0 <= r < q ==> Insert(s, q, x)[r] == s[r]
    ensures forall r :: q < r <= |s| ==> Insert(s, q, x)[r] == s[r - 1]
    ensures Remove(Insert(s, q, x), q) == s
  {
  }

  /** The place of row r when row q was put in. */
  function Up(r: nat, q: nat): nat {
    if r < q then r else r + 1
  }

  lemma NextAfter(lens: seq<nat>, q: nat, h: nat, r: nat, l: nat)
    requires 0 < q <= r < |lens|
    ensures Next(Insert<nat>(lens, q, h), r + 1, l) == Next(lens, r, l) + 1
  {
    var lens' := Insert<nat>(lens, q, h);
    InsertAt<nat>(lens, q, h);
    hide Insert;
    var s := Next(lens, r, l);
    forall t | r + 1 < t < s + 1
      ensures lens'[t] <= l
    {
      assert lens'[t] == lens[t - 1];
    }
    NextIs(lens', r + 1, l, s + 1);
  }

  lemma NextShifted(lens: seq<nat>, q: nat, h: nat, r: nat, l: nat)
    requires r < q <= |lens| && q <= Next(lens, r, l) && h <= l
    ensures Next(Insert<nat>(lens, q, h), r, l) == Next(lens, r, l) + 1
  {
    var lens' := Insert<nat>(lens, q, h);
    InsertAt<nat>(lens, q, h);
    hide Insert;
    var s := Next(lens, r, l);
    forall t | r < t < s + 1
      ensures lens'[t] <= l
    {
      assert t > q ==> lens'[t] == lens[t - 1];
    }
    NextIs(lens', r, l, s + 1);
  }

  lemma NextBefore(lens: seq<nat>, q: nat, h: nat, r: nat, l: nat)
    requires r < q <= |lens| && (Next(lens, r, l) < q || l < h)
    ensures Next(Insert<nat>(lens, q, h), r, l) == if Next(lens, r, l) < q then Next(lens, r, l) else q
  {
    var lens' := Insert<nat>(lens, q, h);
    InsertAt<nat>(lens, q, h);
    hide Insert;
    var s := Next(lens, r, l);
    NextIs(lens', r, l, if s < q then s else q);
  }

  /** How a row that is put in between changes which row is next. */
  lemma NextInsert(lens: seq<nat>, q: nat, h: nat, r: nat, l: nat)
    requires 0 < q <= |lens| && r < |lens|
    ensures var s := Next(lens, r, l);
            Next(Insert<nat>(lens, q, h), Up(r, q), l) == if r < q <= s && l < h then q else Up(s, q)
  {
    hide Insert;
    if r >= q {
      NextAfter(lens, q, h, r, l);
    } else if Next(lens, r, l) < q || l < h {
      NextBefore(lens, q, h, r, l);
    } else {
      NextShifted(lens, q, h, r, l);
    }
  }

  /** The new row's links are those of the row before it that has the level. */
  lemma NextInserted(lens: seq<nat>, q: nat, h: nat, p: nat, l: nat)
    requires p < q <= |lens| && Next(lens, p, l) >= q
    ensures Next(Insert<nat>(lens, q, h), q, l) == Next(lens, p, l) + 1
  {
    var lens' := Insert<nat>(lens, q, h);
    InsertAt<nat>(lens, q, h);
    hide Insert;
    var s := Next(lens, p, l);
    forall t | q < t < s + 1
      ensures lens'[t] <= l
    {
      assert lens'[t] == lens[t - 1];
    }
    NextIs(lens', q, l, s + 1);
  }
}

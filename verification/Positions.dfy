/** The nodes of a binary tree, numbered from 1 at the root, on the way to the leaf that an ident names.
    n is the number of bits of an ident, whose first bit is one. */
module Positions {

  import opened Bits

  /** The position at depth k on the path of an ident: its first k + 1 bits. */
  function PosAt(n: nat, id: nat, k: nat): (r: nat)
    requires k < n
  {
    Shr(id, n - 1 - k)
  }

  ghost predicate OnPath(n: nat, id: nat, pos: nat) {
    && 0 < BitLength(pos) <= n
    && PosAt(n, id, BitLength(pos) - 1) == pos
  }

  predicate IsIdent(n: nat, id: nat) {
    n > 0 && Pow2(n - 1) <= id < Pow2(n)
  }

  lemma PathPosition(n: nat, id: nat, k: nat)
    requires IsIdent(n, id) && k < n
    ensures Pow2(k) <= PosAt(n, id, k) < Pow2(k + 1)
    ensures BitLength(PosAt(n, id, k)) == k + 1
    ensures OnPath(n, id, PosAt(n, id, k))
    ensures k > 0 ==> PosAt(n, id, k) / 2 == PosAt(n, id, k - 1)
    ensures PosAt(n, id, n - 1) == id
  {
    ShrRange(id, n, n - 1 - k);
    BitLengthUnique(PosAt(n, id, k), k);
  }

  /** A position is on the path of an ident if and only if it is the ident's first bits. */
  lemma OnPathAt(n: nat, id: nat, pos: nat)
    requires IsIdent(n, id)
    ensures OnPath(n, id, pos) <==> exists k :: 0 <= k < n && PosAt(n, id, k) == pos
  {
    forall k | 0 <= k < n && PosAt(n, id, k) == pos
      ensures OnPath(n, id, pos)
    {
      PathPosition(n, id, k);
    }
  }

  /** To the right of the last position of a depth there are no idents. */
  lemma LastOfDepth(n: nat, pos: nat)
    requires 0 < BitLength(pos) <= n && BitLength(pos + 1) != BitLength(pos)
    ensures Shl(pos + 1, n - BitLength(pos)) == Pow2(n)
  {
    hide Shl;
    var k := BitLength(pos);
    if pos + 1 < Pow2(k) {
      BitLengthUnique(pos + 1, k - 1);
    }
    ShlPow2(k, n - k);
  }

  /** The idents that can be stored in a position are an interval. */
  lemma Eligible(n: nat, id: nat, pos: nat)
    requires IsIdent(n, id) && pos > 0 && BitLength(pos) <= n
    ensures OnPath(n, id, pos) <==>
            Shl(pos, n - BitLength(pos)) <= id
            && (BitLength(pos + 1) == BitLength(pos) ==> id < Shl(pos + 1, n - BitLength(pos)))
  {
    hide Pow2, Shl, Shr, BitLength;
    ShrInterval(id, pos, n - BitLength(pos));
    if BitLength(pos + 1) != BitLength(pos) {
      LastOfDepth(n, pos);
    }
  }
}

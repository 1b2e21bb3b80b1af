/** The geometry of power-of-two blocks: `(p, o)` stands for the `2^o` pages starting at page `p`. */
module Blocks {
  import opened Bits

  ghost predicate Aligned(p: nat, o: nat) {
    AlignDown(p, o) == p
  }

  ghost predicate InBlock(x: nat, p: nat, o: nat) {
    p <= x < p + Pow2(o)
  }

  /** The other half of the order `o + 1` block that holds `(p, o)`. */
  function Buddy(p: nat, o: nat): nat {
    Xor(p, Pow2(o))
  }

  /** The blocks of order `k >= o` holding `x` and holding the order-`o` block of `x` are the same. */
  lemma {:induction false} AlignTwice(x: nat, o: nat, k: nat)
    ensures o <= k ==> AlignDown(AlignDown(x, o), k) == AlignDown(x, k)
    ensures k <= o ==> AlignDown(AlignDown(x, o), k) == AlignDown(x, o)
    decreases k
  {
    if o == 0 || k == 0 {
    } else {
      AlignTwice(x / 2, o - 1, k - 1);
    }
  }

  /** An aligned block is exactly the set of pages that round down to it. */
  lemma {:induction false} InBlockIff(x: nat, p: nat, o: nat)
    requires Aligned(p, o)
    ensures InBlock(x, p, o) <==> AlignDown(x, o) == p
    decreases o
  {
    AlignDownIsRounding(x, o);
    if o == 0 || !InBlock(x, p, o) {
    } else {
      assert Aligned(p / 2, o - 1);
      InBlockIff(x / 2, p / 2, o - 1);
    }
  }

  /** A block lies within the first `2^n` pages as soon as its first page does. */
  lemma {:induction false} BlockFits(p: nat, o: nat, n: nat)
    requires Aligned(p, o) && o <= n && p < Pow2(n)
    ensures p + Pow2(o) <= Pow2(n)
    decreases o
  {
    if o == 0 {
    } else {
      BlockFits(p / 2, o - 1, n - 1);
    }
  }

  lemma {:induction false} AlignedShr(p: nat, o: nat)
    requires Aligned(p, o)
    ensures Aligned(p, o + 1) <==> Shr(p, o) % 2 == 0
    ensures AlignDown(p, o + 1) == if Shr(p, o) % 2 == 0 then p else p - Pow2(o)
    decreases o
  {
    if o == 0 {
      assert AlignDown(p, 1) == 2 * AlignDown(p / 2, 0);
    } else {
      AlignedShr(p / 2, o - 1);
      assert AlignDown(p, o + 1) == 2 * AlignDown(p / 2, o);
    }
  }

  /** The two halves of a block: the lower is aligned to the next order, the upper is not. */
  lemma BuddyFacts(p: nat, o: nat)
    requires Aligned(p, o)
    ensures Aligned(p, o + 1) ==> Buddy(p, o) == p + Pow2(o) && AlignDown(p, o + 1) == p
    ensures !Aligned(p, o + 1) ==> p >= Pow2(o) && Buddy(p, o) == p - Pow2(o) && AlignDown(p, o + 1) == Buddy(p, o)
    ensures Aligned(Buddy(p, o), o) && Buddy(Buddy(p, o), o) == p && Buddy(p, o) != p
    ensures AlignDown(Buddy(p, o), o + 1) == AlignDown(p, o + 1)
  {
    AlignedShr(p, o);
    XorFlipsBit(p, o);
    if Aligned(p, o + 1) {
      UpperHalf(p, o);
    } else {
      AlignTwice(p, o + 1, o);
      AlignTwice(p, o + 1, o + 1);
      UpperHalf(p - Pow2(o), o);
    }
  }

  lemma {:induction false} UpperHalf(p: nat, o: nat)
    requires Aligned(p, o + 1)
    ensures Aligned(p, o)
    ensures AlignDown(p + Pow2(o), o) == p + Pow2(o)
    ensures AlignDown(p + Pow2(o), o + 1) == p
    ensures Xor(p, Pow2(o)) == p + Pow2(o) && Xor(p + Pow2(o), Pow2(o)) == p
  {
    AlignTwice(p, o + 1, o);
    assert InBlock(p + Pow2(o), p, o + 1);
    InBlockIff(p + Pow2(o), p, o + 1);
    AlignedShr(p, o);
    XorFlipsBit(p, o);
    UpperAligned(p, o);
    AlignedShr(p + Pow2(o), o);
    XorFlipsBit(p + Pow2(o), o);
  }

  lemma {:induction false} UpperAligned(p: nat, o: nat)
    requires Aligned(p, o)
    ensures Aligned(p + Pow2(o), o)
  {
    if o == 0 {
    } else {
      UpperAligned(p / 2, o - 1);
    }
  }

  /** The order-`o` halves of the order-`o + 1` block of `p` are `p` and its buddy, and nothing else. */
  lemma HalvesOnly(p: nat, q: nat, o: nat)
    requires Aligned(p, o) && Aligned(q, o)
    requires AlignDown(q, o + 1) == AlignDown(p, o + 1)
    ensures q == p || q == Buddy(p, o)
  {
    BuddyFacts(p, o);
    BuddyFacts(q, o);
  }

  lemma BuddySymmetric(p: nat, q: nat, o: nat)
    requires Aligned(p, o) && Aligned(q, o)
    ensures q == Buddy(p, o) <==> p == Buddy(q, o)
  {
    BuddyFacts(p, o);
    BuddyFacts(q, o);
  }
}

/** The pair bitmap of the frame allocator: one bit per pair of buddies below the top order, all
    orders packed one after another. */
module Bitmap {
  import opened Bits
  import opened Blocks
  import opened BuddySpec

  const BITMAP_SIZE: nat := MAX_PAGES / 8

  /** The pairs of order `o` start after those of all smaller orders. */
  function BitIndex(p: nat, o: nat): (i: nat)
    requires o < TOP
  {
    ShrMaxPages(o);
    MAX_PAGES - Shr(MAX_PAGES, o) + Shr(p, o + 1)
  }

  lemma {:induction false} ShrPow2(n: nat, k: nat)
    requires k <= n
    ensures Shr(Pow2(n), k) == Pow2(n - k)
  {
    if k == 0 {
    } else {
      ShrPow2(n - 1, k - 1);
    }
  }

  lemma ShrMaxPages(k: nat)
    requires k <= PAGE_BITS
    ensures Shr(MAX_PAGES, k) == Pow2(PAGE_BITS - k) <= MAX_PAGES
  {
    MaxPagesIsPow2();
    ShrPow2(PAGE_BITS, k);
    Pow2Monotone(PAGE_BITS - k, PAGE_BITS);
  }

  lemma {:induction false} ShrBound(x: nat, k: nat, n: nat)
    requires k <= n && x < Pow2(n)
    ensures Shr(x, k) < Pow2(n - k)
  {
    if k == 0 {
    } else {
      ShrBound(x / 2, k - 1, n - 1);
    }
  }

  lemma {:induction false} SameShr(x: nat, y: nat, k: nat)
    ensures Shr(x, k) == Shr(y, k) <==> AlignDown(x, k) == AlignDown(y, k)
  {
    if k == 0 {
    } else {
      SameShr(x / 2, y / 2, k - 1);
    }
  }

  /** Every pair has its own bit inside the bitmap: two (page, order) arguments meet in one bit
      exactly when they name the same pair at the same order. */
  lemma BitIndexInjective(p: nat, o: nat, q: nat, k: nat)
    requires p < MAX_PAGES && q < MAX_PAGES && o < TOP && k < TOP
    ensures BitIndex(p, o) < 8 * BITMAP_SIZE
    ensures BitIndex(p, o) == BitIndex(q, k) <==> o == k && AlignDown(p, o + 1) == AlignDown(q, k + 1)
  {
    hide Pow2, Shr, AlignDown;
    OrderRegion(p, o);
    OrderRegion(q, k);
    if o < k {
      Pow2Monotone(PAGE_BITS - k, PAGE_BITS - o - 1);
    } else if k < o {
      Pow2Monotone(PAGE_BITS - o, PAGE_BITS - k - 1);
    } else {
      SameShr(p, q, o + 1);
    }
  }

  lemma OrderRegion(p: nat, o: nat)
    requires p < MAX_PAGES && o < TOP
    ensures MAX_PAGES - Pow2(PAGE_BITS - o) <= BitIndex(p, o) < MAX_PAGES - Pow2(PAGE_BITS - o - 1)
    ensures MAX_PAGES == 8 * BITMAP_SIZE
  {
    ShrMaxPages(o);
    ShrMaxPages(o + 1);
    MaxPagesIsPow2();
    ShrBound(p, o + 1, PAGE_BITS);
  }

  // ----- single bits of a byte sequence

  predicate TestBit(bytes: seq<bv8>, i: nat)
    requires i < 8 * |bytes|
  {
    bytes[i / 8] & (1 << (i % 8)) != 0
  }

  function FlipBit(bytes: seq<bv8>, i: nat): seq<bv8>
    requires i < 8 * |bytes|
  {
    bytes[i / 8 := bytes[i / 8] ^ (1 << (i % 8))]
  }

  lemma FlipInByte(b: bv8, i: nat, j: nat)
    requires i < 8 && j < 8
    ensures ((b ^ (1 << i)) & (1 << j) != 0) == (if i == j then b & (1 << j) == 0 else b & (1 << j) != 0)
  {
    assert i == 0 || i == 1 || i == 2 || i == 3 || i == 4 || i == 5 || i == 6 || i == 7;
    assert j == 0 || j == 1 || j == 2 || j == 3 || j == 4 || j == 5 || j == 6 || j == 7;
  }

  /** Flipping one bit changes that bit and no other. */
  lemma FlipOne(bytes: seq<bv8>, i: nat, j: nat)
    requires i < 8 * |bytes| && j < 8 * |bytes|
    ensures TestBit(FlipBit(bytes, i), j) == if i == j then !TestBit(bytes, j) else TestBit(bytes, j)
  {
    if i / 8 == j / 8 {
      FlipInByte(bytes[i / 8], i % 8, j % 8);
    }
  }

  // ----- the bitmap against the lists

  ghost predicate PairListed(L: FreeLists, p: nat, o: nat)
    requires o < |L|
  {
    p in L[o] || Buddy(p, o) in L[o]
  }

  /** The bit of a pair is set exactly when one of the two buddies is listed. */
  ghost predicate BitsAgree(bytes: seq<bv8>, L: FreeLists)
    requires |bytes| == BITMAP_SIZE && |L| == MAX_ORDER
  {
    forall o, p: nat :: 0 <= o < TOP && p < MAX_PAGES && Aligned(p, o) ==>
      BitIndex(p, o) < 8 * BITMAP_SIZE && (TestBit(bytes, BitIndex(p, o)) <==> PairListed(L, p, o))
  }

  /** Flipping the bit of the pair of `(p, o)` matches a change of the lists that turns whether
      the pair is listed and touches no other pair. */
  lemma FlipAgrees(bytes: seq<bv8>, L: FreeLists, R: FreeLists, p: nat, o: nat)
    requires |bytes| == BITMAP_SIZE && |L| == |R| == MAX_ORDER && BitsAgree(bytes, L)
    requires o < TOP && p < MAX_PAGES && Aligned(p, o)
    requires PairListed(L, p, o) != PairListed(R, p, o)
    requires forall q: nat :: q != p && q != Buddy(p, o) ==> (q in L[o] <==> q in R[o])
    requires forall k :: 0 <= k < TOP && k != o ==> L[k] == R[k]
    ensures BitIndex(p, o) < 8 * BITMAP_SIZE
    ensures BitsAgree(FlipBit(bytes, BitIndex(p, o)), R)
  {
    var i := BitIndex(p, o);
    BuddyFacts(p, o);
    forall k, q: nat | 0 <= k < TOP && q < MAX_PAGES && Aligned(q, k)
      ensures BitIndex(q, k) < 8 * BITMAP_SIZE && (TestBit(FlipBit(bytes, i), BitIndex(q, k)) <==> PairListed(R, q, k))
    {
      BitIndexInjective(p, o, q, k);
      FlipOne(bytes, i, BitIndex(q, k));
      if k == o {
        BuddySymmetric(p, q, o);
        BuddyFacts(q, o);
        if AlignDown(q, o + 1) == AlignDown(p, o + 1) {
          HalvesOnly(p, q, o);
        }
      }
    }
  }

  lemma ZeroBits(bytes: seq<bv8>, i: nat)
    requires i < 8 * |bytes| && bytes[i / 8] == 0
    ensures !TestBit(bytes, i)
  {}

  // ----- what a bit means for the pages

  /** No page of the block is in `pages`. */
  ghost predicate NoneOf(pages: set<nat>, p: nat, o: nat) {
    forall x: nat :: InBlock(x, p, o) ==> x !in pages
  }

  ghost predicate PartlyIn(pages: set<nat>, p: nat, o: nat) {
    !Run(pages, p, o) && !NoneOf(pages, p, o)
  }

  /** A block is in `pages` exactly when both halves are. */
  lemma HalvesMakeRun(pages: set<nat>, p: nat, o: nat)
    requires Aligned(p, o)
    ensures Run(pages, AlignDown(p, o + 1), o + 1) <==> Run(pages, p, o) && Run(pages, Buddy(p, o), o)
  {
    hide Aligned, AlignDown, Buddy;
    BuddyFacts(p, o);
    var b, m := Buddy(p, o), AlignDown(p, o + 1);
    assert Pow2(o + 1) == 2 * Pow2(o);
    assert forall x: nat :: InBlock(x, m, o + 1) <==> InBlock(x, p, o) || InBlock(x, b, o);
  }

  /** The bit of a pair is set exactly when one buddy is wholly free and the other is not. */
  lemma BitMeansOneWholeBuddy(bytes: seq<bv8>, L: FreeLists, p: nat, o: nat)
    requires |bytes| == BITMAP_SIZE && Inv(L) && BitsAgree(bytes, L) && o < TOP && p < MAX_PAGES && Aligned(p, o)
    ensures BitIndex(p, o) < 8 * |bytes|
    ensures TestBit(bytes, BitIndex(p, o)) <==> (Run(FreePages(L), p, o) != Run(FreePages(L), Buddy(p, o), o))
  {
    hide Inv, FreePages, Run, TestBit, BitIndex, Buddy, AlignDown;
    SameLength(L);
    var b, pages := Buddy(p, o), FreePages(L);
    BuddyFacts(p, o);
    CanonicalForm(L);
    HalvesMakeRun(pages, p, o);
    assert p in L[o] <==> MaximalRun(pages, p, o);
    assert b in L[o] <==> MaximalRun(pages, b, o);
  }

  lemma SameLength(L: FreeLists)
    requires Inv(L)
    ensures |L| == MAX_ORDER
  {}

  /** So the free pages alone determine every bit, whatever the history. */
  lemma FreePagesDetermineBits(bytes: seq<bv8>, L: FreeLists, bytes': seq<bv8>, R: FreeLists, p: nat, o: nat)
    requires |bytes| == |bytes'| == BITMAP_SIZE && Inv(L) && Inv(R) && BitsAgree(bytes, L) && BitsAgree(bytes', R)
    requires FreePages(L) == FreePages(R) && o < TOP && p < MAX_PAGES && Aligned(p, o)
    ensures BitIndex(p, o) < 8 * BITMAP_SIZE && TestBit(bytes, BitIndex(p, o)) == TestBit(bytes', BitIndex(p, o))
  {
    hide Inv, FreePages, Run, TestBit, BitIndex, Buddy, BitsAgree;
    BitMeansOneWholeBuddy(bytes, L, p, o);
    BitMeansOneWholeBuddy(bytes', R, p, o);
  }

  /** What the comment on the bitmap says: set if one buddy is free and one used, clear if both are
      free or both used. */
  ghost predicate AsDocumented(bit: bool, pages: set<nat>, p: nat, o: nat) {
    var b := Buddy(p, o);
    && (bit <==> (Run(pages, p, o) && NoneOf(pages, b, o)) || (NoneOf(pages, p, o) && Run(pages, b, o)))
    && (!bit <==> (Run(pages, p, o) && Run(pages, b, o)) || (NoneOf(pages, p, o) && NoneOf(pages, b, o)))
  }

  lemma RunIsNotNone(pages: set<nat>, p: nat, o: nat)
    ensures !(Run(pages, p, o) && NoneOf(pages, p, o))
  {
    assert InBlock(p, p, o);
  }

  /** The comment holds of a pair if and only if neither buddy is partly free. */
  lemma CommentHoldsExactly(bytes: seq<bv8>, L: FreeLists, p: nat, o: nat)
    requires |bytes| == BITMAP_SIZE && Inv(L) && BitsAgree(bytes, L) && o < TOP && p < MAX_PAGES && Aligned(p, o)
    ensures BitIndex(p, o) < 8 * |bytes|
    ensures AsDocumented(TestBit(bytes, BitIndex(p, o)), FreePages(L), p, o) <==>
              !PartlyIn(FreePages(L), p, o) && !PartlyIn(FreePages(L), Buddy(p, o), o)
  {
    hide Inv, FreePages, Run, NoneOf, TestBit, BitIndex, Buddy, BitsAgree;
    SameLength(L);
    BitMeansOneWholeBuddy(bytes, L, p, o);
    RunIsNotNone(FreePages(L), p, o);
    RunIsNotNone(FreePages(L), Buddy(p, o), o);
  }

  // ----- a bitmap that does not follow the comment

  ghost function NoBlocks(): FreeLists {
    seq(MAX_ORDER, _ => [])
  }

  /** The allocator after it was fed page 0 alone. */
  ghost function OneFrame(): (L: FreeLists)
    ensures L == NoBlocks()[0 := [0]]
  {
    assert NoBlocks()[0] == [];
    assert [0] + NoBlocks()[0] == [0];
    Release(NoBlocks(), 0, 0)
  }

  ghost function OneFrameBits(): (bytes: seq<bv8>)
    ensures |bytes| == BITMAP_SIZE
  {
    BitIndexInjective(0, 0, 0, 0);
    FlipBit(seq(BITMAP_SIZE, _ => 0), BitIndex(0, 0))
  }

  lemma ClearedBits()
    ensures BitsAgree(seq(BITMAP_SIZE, _ => 0), NoBlocks())
  {
    hide BitIndex, TestBit;
    var bytes: seq<bv8> := seq(BITMAP_SIZE, _ => 0);
    forall o, p: nat | 0 <= o < TOP && p < MAX_PAGES && Aligned(p, o)
      ensures BitIndex(p, o) < 8 * BITMAP_SIZE && (TestBit(bytes, BitIndex(p, o)) <==> PairListed(NoBlocks(), p, o))
    {
      BitIndexInjective(p, o, p, o);
      ZeroBits(bytes, BitIndex(p, o));
    }
  }

  lemma OneFrameInv()
    ensures Inv(OneFrame()) && FreePages(OneFrame()) == {0}
  {
    hide OneFrame;
    var L := OneFrame();
    forall x: nat ensures BuddySpec.Free(L, x) <==> x == 0 {
      assert AlignDown(x, 0) == x;
    }
  }

  /** With page 0 free and pages 1 to 3 used the bit of the two order-1 blocks is clear, although one
      is partly free and the other used. */
  lemma CommentFails()
    ensures Inv(OneFrame()) && BitsAgree(OneFrameBits(), OneFrame()) && Aligned(0, 1) && BitIndex(0, 1) < 8 * BITMAP_SIZE
    ensures PartlyIn(FreePages(OneFrame()), 0, 1) && NoneOf(FreePages(OneFrame()), Buddy(0, 1), 1)
    ensures !AsDocumented(TestBit(OneFrameBits(), BitIndex(0, 1)), FreePages(OneFrame()), 0, 1)
  {
    OneFrameInv();
    OneFrameAgrees();
    LowBlocks();
    CommentHoldsExactly(OneFrameBits(), OneFrame(), 0, 1);
  }

  lemma OneFrameAgrees()
    ensures BitsAgree(OneFrameBits(), OneFrame())
  {
    hide FlipBit, BitIndex, BitsAgree, OneFrame;
    ClearedBits();
    assert Aligned(0, 0);
    FlipAgrees(seq(BITMAP_SIZE, _ => 0), NoBlocks(), OneFrame(), 0, 0);
  }

  lemma LowBlocks()
    ensures Aligned(0, 1) && PartlyIn({0}, 0, 1) && NoneOf({0}, Buddy(0, 1), 1)
  {
    assert Pow2(1) == 2;
    assert InBlock(0, 0, 1) && InBlock(1, 0, 1);
    BuddyFacts(0, 1);
  }
}

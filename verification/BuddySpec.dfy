/** The buddy system on values. A state is one duplicate-free list of block starts per order;
    `Take` and `Release` are the splitting and merging recursions of the frame allocator, with
    "is the buddy listed?" asked of the list itself instead of a bitmap. */
module BuddySpec {
  import opened Bits
  import opened Blocks
  import opened Seqs

  const MAX_ORDER: nat := 12
  const TOP: nat := 11
  const PAGE_BITS: nat := 18
  const MAX_PAGES: nat := 262_144

  type FreeLists = seq<seq<nat>>

  lemma MaxPagesIsPow2()
    ensures MAX_PAGES == Pow2(PAGE_BITS)
  {
    assert Pow2(6) == 64;
    Pow2Add(6, 6);
    Pow2Add(12, 6);
  }

  // ----- the invariant

  ghost predicate WellFormed(L: FreeLists) {
    && |L| == MAX_ORDER
    && (forall o :: 0 <= o < MAX_ORDER ==> NoDup(L[o]))
    && (forall o, p :: 0 <= o < MAX_ORDER && p in L[o] ==> Aligned(p, o) && p < MAX_PAGES)
  }

  /** No listed block holds the start of a listed block of a smaller order. */
  ghost predicate Separate(L: FreeLists)
    requires |L| == MAX_ORDER
  {
    forall o, k, p :: 0 <= o < k < MAX_ORDER && p in L[o] ==> AlignDown(p, k) !in L[k]
  }

  /** Below the top order two buddies are never listed together. */
  ghost predicate Merged(L: FreeLists)
    requires |L| == MAX_ORDER
  {
    forall o, p :: 0 <= o < TOP && p in L[o] ==> Buddy(p, o) !in L[o]
  }

  ghost predicate Inv(L: FreeLists) {
    WellFormed(L) && Separate(L) && Merged(L)
  }

  // ----- free pages

  /** Page `x` lies in a listed block. */
  ghost predicate Free(L: FreeLists, x: nat)
    requires |L| == MAX_ORDER
  {
    exists o :: 0 <= o < MAX_ORDER && AlignDown(x, o) in L[o]
  }

  ghost function FreePages(L: FreeLists): set<nat>
    requires |L| == MAX_ORDER
  {
    set x: nat | x < MAX_PAGES && Free(L, x)
  }

  /** Every page of the block is in `pages`. */
  ghost predicate Run(pages: set<nat>, p: nat, o: nat) {
    forall x: nat :: InBlock(x, p, o) ==> x in pages
  }

  /** An aligned run of `pages` that no larger block of at most the top order extends. */
  ghost predicate MaximalRun(pages: set<nat>, p: nat, o: nat) {
    Aligned(p, o) && Run(pages, p, o) && (o < TOP ==> !Run(pages, AlignDown(p, o + 1), o + 1))
  }

  /** No page of the block is free. */
  ghost predicate Unfree(L: FreeLists, p: nat, o: nat)
    requires |L| == MAX_ORDER
  {
    forall x: nat :: InBlock(x, p, o) ==> !Free(L, x)
  }

  /** `Unfree` in terms of listed blocks: none contains the block, none is contained in it. */
  ghost predicate Vacant(L: FreeLists, p: nat, o: nat)
    requires |L| == MAX_ORDER
  {
    && (forall k :: o <= k < MAX_ORDER ==> AlignDown(p, k) !in L[k])
    && (forall k, q :: 0 <= k < o && k < MAX_ORDER && q in L[k] ==> AlignDown(q, o) != p)
  }

  lemma VacantIffUnfree(L: FreeLists, p: nat, o: nat)
    requires WellFormed(L) && Aligned(p, o)
    ensures Vacant(L, p, o) <==> Unfree(L, p, o)
  {
    if Vacant(L, p, o) {
      forall x: nat | InBlock(x, p, o) ensures !Free(L, x) {
        InBlockIff(x, p, o);
        forall k | 0 <= k < MAX_ORDER ensures AlignDown(x, k) !in L[k] {
          AlignTwice(x, o, k);
          AlignTwice(x, k, o);
        }
      }
    }
    if Unfree(L, p, o) {
      assert InBlock(p, p, o);
      forall k, q | 0 <= k < o && k < MAX_ORDER && q in L[k] ensures AlignDown(q, o) != p {
        assert Free(L, q);
        InBlockIff(q, p, o);
      }
    }
  }

  lemma SinglePage(L: FreeLists, p: nat)
    requires |L| == MAX_ORDER
    ensures Aligned(p, 0) && (Unfree(L, p, 0) <==> !Free(L, p))
  {
    assert forall x: nat :: InBlock(x, p, 0) <==> x == p;
  }

  // ----- the operations

  /** Merge `(p, o)` with its buddy for as long as the buddy is listed, then list the result. */
  function Release(L: FreeLists, p: nat, o: nat): (r: FreeLists)
    requires |L| == MAX_ORDER && o < MAX_ORDER
    ensures |r| == MAX_ORDER
    decreases MAX_ORDER - o
  {
    if o < TOP && Buddy(p, o) in L[o] then
      Release(L[o := Without(L[o], Buddy(p, o))], if p < Buddy(p, o) then p else Buddy(p, o), o + 1)
    else
      L[o := [p] + L[o]]
  }

  /** Take the first block of the smallest sufficient order, listing the upper half at each split. */
  function Take(L: FreeLists, o: nat): (r: Option<(nat, FreeLists)>)
    requires |L| == MAX_ORDER
    ensures r.Some? ==> |r.value.1| == MAX_ORDER
    decreases MAX_ORDER - o
  {
    if o >= MAX_ORDER then None
    else if L[o] != [] then Some((L[o][0], L[o := L[o][1..]]))
    else match Take(L, o + 1)
      case None => None
      case Some((p, R)) => Some((p, R[o := [Buddy(p, o)] + R[o]]))
  }

  // ----- listing and unlisting one block

  lemma ListBlock(L: FreeLists, p: nat, o: nat)
    requires Inv(L) && o < MAX_ORDER && Aligned(p, o) && p < MAX_PAGES && Vacant(L, p, o)
    requires o < TOP ==> Buddy(p, o) !in L[o]
    ensures Inv(L[o := [p] + L[o]])
    ensures forall x: nat :: Free(L[o := [p] + L[o]], x) <==> Free(L, x) || InBlock(x, p, o)
  {
    var R := L[o := [p] + L[o]];
    assert AlignDown(p, o) !in L[o];
    forall q | q in R[o] && o < TOP ensures Buddy(q, o) !in R[o] {
      BuddySymmetric(q, p, o);
      BuddyFacts(p, o);
    }
    forall x: nat ensures Free(R, x) <==> Free(L, x) || InBlock(x, p, o) {
      InBlockIff(x, p, o);
      if Free(L, x) {
        var k :| 0 <= k < MAX_ORDER && AlignDown(x, k) in L[k];
        assert AlignDown(x, k) in R[k];
      }
      if AlignDown(x, o) == p { assert AlignDown(x, o) in R[o]; }
    }
  }

  lemma UnlistBlock(L: FreeLists, p: nat, o: nat, s: seq<nat>)
    requires Inv(L) && o < MAX_ORDER && p in L[o]
    requires NoDup(s) && forall q :: q in s <==> q in L[o] && q != p
    ensures Inv(L[o := s])
    ensures Vacant(L[o := s], p, o)
    ensures forall x: nat :: Free(L[o := s], x) <==> Free(L, x) && !InBlock(x, p, o)
  {
    var R := L[o := s];
    assert forall k, q :: 0 <= k < MAX_ORDER && q in R[k] ==> q in L[k];
    assert Inv(R);
    assert AlignDown(p, o) == p;
    assert Vacant(R, p, o);
    VacantIffUnfree(R, p, o);
    forall x: nat ensures Free(R, x) <==> Free(L, x) && !InBlock(x, p, o) {
      InBlockIff(x, p, o);
      if Free(L, x) && !InBlock(x, p, o) {
        var k :| 0 <= k < MAX_ORDER && AlignDown(x, k) in L[k];
        assert AlignDown(x, k) in R[k];
      }
      if Free(R, x) {
        var k :| 0 <= k < MAX_ORDER && AlignDown(x, k) in R[k];
        assert AlignDown(x, k) in L[k];
      }
    }
  }

  /** Once the buddy is unlisted, the merged block is vacant and spans exactly the two halves. */
  lemma MergeStep(L: FreeLists, p: nat, o: nat)
    requires Inv(L) && o < TOP && Aligned(p, o) && p < MAX_PAGES && Vacant(L, p, o)
    requires Buddy(p, o) in L[o]
    ensures var b := Buddy(p, o);
            var m := if p < b then p else b;
            var R := L[o := Without(L[o], b)];
            && m == AlignDown(p, o + 1) && Aligned(m, o + 1) && m < MAX_PAGES
            && Inv(R) && Vacant(R, m, o + 1)
            && (forall x: nat :: Free(L, x) || InBlock(x, p, o) <==> Free(R, x) || InBlock(x, m, o + 1))
  {
    var b := Buddy(p, o);
    var m := if p < b then p else b;
    var R := L[o := Without(L[o], b)];
    BuddyFacts(p, o);
    WithoutMembers(L[o], b);
    UnlistBlock(L, b, o, R[o]);
    AlignTwice(p, o + 1, o + 1);
    forall k | o + 1 <= k < MAX_ORDER ensures AlignDown(m, k) !in R[k] {
      AlignTwice(p, o + 1, k);
    }
    forall k, q | 0 <= k < o + 1 && q in R[k] ensures AlignDown(q, o + 1) != m {
      AlignTwice(q, o, o + 1);
      AlignTwice(q, o, o);
      assert k < o ==> AlignDown(q, o) !in L[o];
      if AlignDown(q, o + 1) == m {
        HalvesOnly(p, AlignDown(q, o), o);
      }
    }
    RunInBlock(L, b, o);
    MergedPages(L, R, p, o);
  }

  lemma MergedPages(L: FreeLists, R: FreeLists, p: nat, o: nat)
    requires |L| == |R| == MAX_ORDER && Aligned(p, o) && Run(FreePages(L), Buddy(p, o), o)
    requires forall x: nat :: Free(R, x) <==> Free(L, x) && !InBlock(x, Buddy(p, o), o)
    ensures var m := if p < Buddy(p, o) then p else Buddy(p, o);
            forall x: nat :: Free(L, x) || InBlock(x, p, o) <==> Free(R, x) || InBlock(x, m, o + 1)
  {
    hide Free, Aligned;
    var b := Buddy(p, o);
    BuddyFacts(p, o);
    assert Pow2(o + 1) == 2 * Pow2(o);
    forall x: nat ensures Free(L, x) || InBlock(x, p, o) <==> Free(R, x) || InBlock(x, if p < b then p else b, o + 1) {
      assert InBlock(x, b, o) ==> x in FreePages(L);
    }
  }

  // ----- what releasing a block does

  /** Releasing a vacant block keeps the invariant and frees exactly its pages. */
  lemma {:induction false} ReleaseCorrect(L: FreeLists, p: nat, o: nat)
    requires Inv(L) && o < MAX_ORDER && Aligned(p, o) && p < MAX_PAGES && Vacant(L, p, o)
    ensures Inv(Release(L, p, o))
    ensures forall x: nat :: Free(Release(L, p, o), x) <==> Free(L, x) || InBlock(x, p, o)
    decreases MAX_ORDER - o
  {
    if o < TOP && Buddy(p, o) in L[o] {
      MergeStep(L, p, o);
      var b := Buddy(p, o);
      ReleaseCorrect(L[o := Without(L[o], b)], if p < b then p else b, o + 1);
    } else {
      ListBlock(L, p, o);
    }
  }

  // ----- what taking a block does

  /** Taking a block keeps the invariant and removes exactly an aligned free run from the free
      pages; it fails only when every list of a sufficient order is empty. */
  lemma {:induction false} TakeCorrect(L: FreeLists, o: nat)
    requires Inv(L)
    ensures Take(L, o).None? <==> forall k :: o <= k < MAX_ORDER ==> L[k] == []
    ensures Take(L, o).Some? ==>
              var (p, R) := Take(L, o).value;
              && o < MAX_ORDER && Aligned(p, o) && p < MAX_PAGES
              && Inv(R) && Vacant(R, p, o)
              && (forall x: nat :: Free(R, x) <==> Free(L, x) && !InBlock(x, p, o))
              && (forall x: nat :: InBlock(x, p, o) ==> Free(L, x))
              && (forall k :: 0 <= k < o ==> R[k] == L[k])
    decreases MAX_ORDER - o
  {
    if o >= MAX_ORDER {
    } else if L[o] != [] {
      var p := L[o][0];
      assert forall q :: q in L[o][1..] <==> q in L[o] && q != p;
      UnlistBlock(L, p, o, L[o][1..]);
      forall x: nat | InBlock(x, p, o) ensures Free(L, x) {
        InBlockIff(x, p, o);
      }
    } else {
      TakeCorrect(L, o + 1);
      if Take(L, o + 1).Some? {
        var (p, R) := Take(L, o + 1).value;
        SplitStep(R, p, o);
      }
    }
  }

  /** Splitting a vacant block: list the upper half, hand out the lower. */
  lemma SplitStep(R: FreeLists, p: nat, o: nat)
    requires Inv(R) && o < TOP && Aligned(p, o + 1) && p < MAX_PAGES && Vacant(R, p, o + 1)
    ensures var S := R[o := [Buddy(p, o)] + R[o]];
            && Aligned(p, o) && Inv(S) && Vacant(S, p, o)
            && (forall x: nat :: Free(S, x) <==> Free(R, x) || (InBlock(x, p, o + 1) && !InBlock(x, p, o)))
  {
    var b := Buddy(p, o);
    var S := R[o := [b] + R[o]];
    UpperHalf(p, o);
    BuddyFacts(p, o);
    MaxPagesIsPow2();
    BlockFits(p, o + 1, PAGE_BITS);
    assert Pow2(o + 1) == 2 * Pow2(o);
    VacantIffUnfree(R, p, o + 1);
    VacantIffUnfree(R, b, o);
    assert InBlock(p, p, o + 1) && !Free(R, p);
    assert AlignDown(p, o) !in R[o];
    ListBlock(R, b, o);
    assert Unfree(S, p, o) by { assert forall x: nat :: InBlock(x, p, o) ==> InBlock(x, p, o + 1); }
    VacantIffUnfree(S, p, o);
  }

  // ----- which block is taken, and where a released one goes

  /** `Take(L, o)` draws from order `k`: the first non-empty list at or above `o`. */
  ghost predicate FirstStocked(L: FreeLists, o: nat, k: nat)
    requires |L| == MAX_ORDER
  {
    o <= k < MAX_ORDER && L[k] != [] && forall j :: o <= j < k ==> L[j] == []
  }

  /** What taking block `p` from list `k` to serve order `o` leaves behind. */
  ghost predicate SplitDown(L: FreeLists, o: nat, k: nat, p: nat, R: FreeLists)
    requires |L| == |R| == MAX_ORDER && o <= k < MAX_ORDER
  {
    && L[k] == [p] + R[k]
    && (forall j :: o <= j < k ==> R[j] == [p + Pow2(j)])
    && (forall j :: 0 <= j < o || k < j < MAX_ORDER ==> R[j] == L[j])
  }

  /** The block taken is the most recently listed one of the smallest stocked order; splitting
      it leaves exactly the upper half at each order in between, and nothing else changes. */
  lemma {:induction false} TakeShape(L: FreeLists, o: nat, k: nat)
    requires |L| == MAX_ORDER && Inv(L) && FirstStocked(L, o, k)
    ensures Take(L, o).Some?
    ensures var (p, R) := Take(L, o).value; SplitDown(L, o, k, p, R)
    decreases k - o
  {
    hide Inv, Aligned, Take;
    if o < k {
      TakeShape(L, o + 1, k);
      var (p, R) := Take(L, o + 1).value;
      TakeSplit(L, o);
      assert Aligned(p, o + 1) by { TakeCorrect(L, o + 1); }
      BuddyFactsOfUpper(p, o);
      assert [Buddy(p, o)] + R[o] == [p + Pow2(o)];
    } else {
      TakeHead(L, o);
    }
  }

  lemma TakeHead(L: FreeLists, o: nat)
    requires |L| == MAX_ORDER && o < MAX_ORDER && L[o] != []
    ensures Take(L, o) == Some((L[o][0], L[o := L[o][1..]]))
  {}

  lemma TakeSplit(L: FreeLists, o: nat)
    requires |L| == MAX_ORDER && o < MAX_ORDER && L[o] == [] && Take(L, o + 1).Some?
    ensures var (p, R) := Take(L, o + 1).value;
            Take(L, o) == Some((p, R[o := [Buddy(p, o)] + R[o]]))
  {}

  lemma BuddyFactsOfUpper(p: nat, o: nat)
    requires Aligned(p, o + 1)
    ensures Buddy(p, o) == p + Pow2(o)
  {
    UpperHalf(p, o);
  }

  /** `(p, o)` merges up to order `k` and no further. */
  ghost predicate MergesUpTo(L: FreeLists, p: nat, o: nat, k: nat)
    requires |L| == MAX_ORDER
  {
    && o <= k < MAX_ORDER
    && (forall j :: o <= j < k ==> Buddy(AlignDown(p, j), j) in L[j])
    && (k < TOP ==> Buddy(AlignDown(p, k), k) !in L[k])
  }

  /** A released block absorbs the listed buddies below order `k`, is put at the front of list `k`,
      and nothing else changes. */
  lemma {:induction false} ReleaseShape(L: FreeLists, p: nat, o: nat, k: nat)
    requires |L| == MAX_ORDER && Inv(L)
    requires Aligned(p, o) && p < MAX_PAGES && Vacant(L, p, o) && MergesUpTo(L, p, o, k)
    ensures var R := Release(L, p, o);
            && R[k] == [AlignDown(p, k)] + L[k]
            && (forall j :: o <= j < k ==> R[j] == Without(L[j], Buddy(AlignDown(p, j), j)))
            && (forall j :: 0 <= j < o || k < j < MAX_ORDER ==> R[j] == L[j])
    decreases k - o
  {
    hide Inv, Vacant;
    if o == k {
    } else {
      MergeStep(L, p, o);
      var b := Buddy(p, o);
      var m := if p < b then p else b;
      forall j | o < j <= k ensures AlignDown(m, j) == AlignDown(p, j) {
        AlignTwice(p, o + 1, j);
      }
      ReleaseShape(L[o := Without(L[o], b)], m, o + 1, k);
    }
  }

  // ----- canonical form

  lemma RunInBlock(L: FreeLists, p: nat, o: nat)
    requires WellFormed(L) && o < MAX_ORDER && p in L[o]
    ensures Run(FreePages(L), p, o)
  {
    MaxPagesIsPow2();
    BlockFits(p, o, PAGE_BITS);
    forall x: nat | InBlock(x, p, o) ensures x in FreePages(L) {
      InBlockIff(x, p, o);
    }
  }

  /** A free page is a managed page. */
  lemma FreeIsManaged(L: FreeLists, x: nat)
    requires WellFormed(L) && Free(L, x)
    ensures x < MAX_PAGES
  {
    var o :| 0 <= o < MAX_ORDER && AlignDown(x, o) in L[o];
    RunInBlock(L, AlignDown(x, o), o);
    AlignDownIsRounding(x, o);
    assert InBlock(x, AlignDown(x, o), o);
  }

  /** Maximal coalescing: an aligned run of free pages lies inside a single listed block. */
  lemma {:induction false} RunsAreCoalesced(L: FreeLists, p: nat, o: nat)
    requires Inv(L) && o < MAX_ORDER && Aligned(p, o) && Run(FreePages(L), p, o)
    ensures exists k :: o <= k < MAX_ORDER && AlignDown(p, k) in L[k]
    decreases o
  {
    if o == 0 {
      assert InBlock(p, p, 0);
    } else {
      UpperHalf(p, o - 1);
      BuddyFacts(p, o - 1);
      var b := Buddy(p, o - 1);
      assert Pow2(o) == 2 * Pow2(o - 1);
      assert forall x: nat :: InBlock(x, p, o - 1) || InBlock(x, b, o - 1) ==> InBlock(x, p, o);
      RunsAreCoalesced(L, p, o - 1);
      RunsAreCoalesced(L, b, o - 1);
      var k :| o - 1 <= k < MAX_ORDER && AlignDown(p, k) in L[k];
      var j :| o - 1 <= j < MAX_ORDER && AlignDown(b, j) in L[j];
      if k == o - 1 && j > o - 1 {
        AlignTwice(b, o, j);
        AlignTwice(p, o, j);
      }
    }
  }

  /** The listed blocks are exactly the maximal aligned runs of the free pages. */
  lemma CanonicalForm(L: FreeLists)
    requires Inv(L)
    ensures forall o, p: nat :: 0 <= o < MAX_ORDER ==> (p in L[o] <==> MaximalRun(FreePages(L), p, o))
  {
    forall o, p: nat | 0 <= o < MAX_ORDER ensures p in L[o] <==> MaximalRun(FreePages(L), p, o) {
      if p in L[o] {
        RunInBlock(L, p, o);
        if o < TOP && Run(FreePages(L), AlignDown(p, o + 1), o + 1) {
          var q := AlignDown(p, o + 1);
          AlignTwice(p, o + 1, o + 1);
          RunsAreCoalesced(L, q, o + 1);
          var k :| o + 1 <= k < MAX_ORDER && AlignDown(q, k) in L[k];
          AlignTwice(p, o + 1, k);
        }
      }
      if MaximalRun(FreePages(L), p, o) {
        RunsAreCoalesced(L, p, o);
        var k :| o <= k < MAX_ORDER && AlignDown(p, k) in L[k];
        if k > o {
          SubRun(L, p, o, k);
        }
      }
    }
  }

  lemma SubRun(L: FreeLists, p: nat, o: nat, k: nat)
    requires WellFormed(L) && o < k < MAX_ORDER && AlignDown(p, k) in L[k]
    ensures Run(FreePages(L), AlignDown(p, o + 1), o + 1)
  {
    RunInBlock(L, AlignDown(p, k), k);
    AlignTwice(p, o + 1, o + 1);
    AlignTwice(p, k, k);
    forall x: nat | InBlock(x, AlignDown(p, o + 1), o + 1) ensures x in FreePages(L) {
      InBlockIff(x, AlignDown(p, o + 1), o + 1);
      AlignTwice(x, o + 1, k);
      AlignTwice(p, o + 1, k);
      InBlockIff(x, AlignDown(p, k), k);
    }
  }

  /** The two states list the same blocks at every order. */
  ghost predicate SameBlocks(L: FreeLists, R: FreeLists) {
    |L| == |R| == MAX_ORDER && forall o, p: nat :: 0 <= o < MAX_ORDER ==> (p in L[o] <==> p in R[o])
  }

  /** History independence: the free pages determine the free blocks. */
  lemma FreePagesDetermineBlocks(L: FreeLists, R: FreeLists)
    requires Inv(L) && Inv(R)
    ensures SameBlocks(L, R) <==> FreePages(L) == FreePages(R)
  {
    if FreePages(L) == FreePages(R) {
      CanonicalForm(L);
      CanonicalForm(R);
    }
    if SameBlocks(L, R) {
      forall x: nat ensures Free(L, x) <==> Free(R, x) {
        if Free(L, x) {
          var o :| 0 <= o < MAX_ORDER && AlignDown(x, o) in L[o];
          assert AlignDown(x, o) in R[o];
        }
        if Free(R, x) {
          var o :| 0 <= o < MAX_ORDER && AlignDown(x, o) in R[o];
          assert AlignDown(x, o) in L[o];
        }
      }
    }
  }

  /** Allocation is complete: it fails exactly when no aligned run of the size is free. */
  lemma TakeComplete(L: FreeLists, o: nat)
    requires Inv(L) && o < MAX_ORDER
    ensures Take(L, o).None? <==> !exists p: nat :: Aligned(p, o) && Run(FreePages(L), p, o)
  {
    TakeCorrect(L, o);
    if Take(L, o).None? {
      forall p: nat | Aligned(p, o) ensures !Run(FreePages(L), p, o) {
        if Run(FreePages(L), p, o) {
          RunsAreCoalesced(L, p, o);
        }
      }
    } else {
      var p := Take(L, o).value.0;
      TakenRun(L, o);
      assert Aligned(p, o) && Run(FreePages(L), p, o);
    }
  }

  lemma TakenRun(L: FreeLists, o: nat)
    requires Inv(L) && Take(L, o).Some?
    ensures var (p, R) := Take(L, o).value;
            Run(FreePages(L), p, o) && FreePages(R) == FreePages(L) - BlockPages(p, o)
  {
    TakeCorrect(L, o);
    var (p, R) := Take(L, o).value;
    MaxPagesIsPow2();
    BlockFits(p, o, PAGE_BITS);
  }

  ghost function BlockPages(p: nat, o: nat): set<nat> {
    set x: nat | x < p + Pow2(o) && InBlock(x, p, o)
  }

  /** Freeing what was just allocated restores the free blocks, whatever splits it took. */
  lemma TakeThenRelease(L: FreeLists, o: nat)
    requires Inv(L) && Take(L, o).Some?
    ensures var (p, R) := Take(L, o).value;
            SameBlocks(Release(R, p, o), L)
  {
    TakeCorrect(L, o);
    var (p, R) := Take(L, o).value;
    ReleaseCorrect(R, p, o);
    FreePagesDetermineBlocks(Release(R, p, o), L);
  }

  /** Distinct listed blocks share no page. */
  lemma ListedBlocksDisjoint(L: FreeLists, o: nat, p: nat, k: nat, q: nat)
    requires Inv(L) && o < MAX_ORDER && k < MAX_ORDER && p in L[o] && q in L[k] && (o, p) != (k, q)
    ensures BlockPages(p, o) !! BlockPages(q, k)
  {
    if x :| x in BlockPages(p, o) && x in BlockPages(q, k) {
      InBlockIff(x, p, o);
      InBlockIff(x, q, k);
      AlignTwice(x, o, k);
      AlignTwice(x, k, o);
    }
  }
}

/** The buddy frame allocator: intrusive doubly linked free lists and a pair bitmap. */
module Buddy {
  import opened Bits
  import opened Blocks
  import opened Seqs
  import opened BuddySpec
  import opened Bitmap

  /** A nullable pointer to the record at the start of a free block, named by its page. */
  type Link = Option<nat>

  // ----- linked lists on values

  /** What follows and what precedes the element at index `i`. */
  function After(s: seq<nat>, i: nat): Link
    requires i < |s|
  {
    if i == |s| - 1 then None else Some(s[i + 1])
  }

  function Before(s: seq<nat>, i: nat): Link
    requires i < |s|
  {
    if i == 0 then None else Some(s[i - 1])
  }

  /** The pages that start a listed block are pages. */
  ghost predicate StartsBounded(L: FreeLists) {
    forall o, i :: 0 <= o < |L| && 0 <= i < |L[o]| ==> L[o][i] < MAX_PAGES
  }

  ghost predicate HeadsAgree(heads: seq<Link>, L: FreeLists) {
    |heads| == |L| == MAX_ORDER && forall o :: 0 <= o < MAX_ORDER ==> heads[o] == First(L[o])
  }

  ghost predicate NextAgrees(next: seq<Link>, L: FreeLists)
    requires |next| == MAX_PAGES && StartsBounded(L)
  {
    forall o, i :: 0 <= o < |L| && 0 <= i < |L[o]| ==> next[L[o][i]] == After(L[o], i)
  }

  ghost predicate PrevAgrees(prev: seq<Link>, L: FreeLists)
    requires |prev| == MAX_PAGES && StartsBounded(L)
  {
    forall o, i :: 0 <= o < |L| && 0 <= i < |L[o]| ==> prev[L[o][i]] == Before(L[o], i)
  }

  /** Heads and records describe exactly the lists: every record of list `o` points to its
      neighbours in `L[o]`, and the head to its first. */
  ghost predicate LinksAgree(heads: seq<Link>, next: seq<Link>, prev: seq<Link>, L: FreeLists) {
    && |next| == |prev| == MAX_PAGES && StartsBounded(L)
    && HeadsAgree(heads, L) && NextAgrees(next, L) && PrevAgrees(prev, L)
  }

  /** No page starts two listed blocks. */
  ghost predicate StartsDiffer(L: FreeLists) {
    && (forall o :: 0 <= o < |L| ==> NoDup(L[o]))
    && (forall o, k, p :: 0 <= o < k < |L| && p in L[o] ==> p !in L[k])
  }

  lemma InvStartsDiffer(L: FreeLists)
    requires Inv(L)
    ensures StartsDiffer(L)
  {
    forall o, k, p | 0 <= o < k < |L| && p in L[o] ensures p !in L[k] {
      assert AlignDown(p, k) !in L[k];
    }
  }

  lemma LinkedHead(heads: seq<Link>, next: seq<Link>, prev: seq<Link>, L: FreeLists, o: nat)
    requires LinksAgree(heads, next, prev, L) && o < MAX_ORDER
    ensures |heads| == |L| == MAX_ORDER && heads[o] == First(L[o])
  {}

  lemma PushAgrees(heads: seq<Link>, next: seq<Link>, prev: seq<Link>, L: FreeLists, p: nat, o: nat)
    requires LinksAgree(heads, next, prev, L) && StartsDiffer(L)
    requires o < MAX_ORDER && p < MAX_PAGES && forall k :: 0 <= k < MAX_ORDER ==> p !in L[k]
    ensures heads[o].Some? ==> heads[o].value < MAX_PAGES
    ensures var prev' := prev[p := None];
            LinksAgree(heads[o := Some(p)], next[p := heads[o]],
                       if heads[o].Some? then prev'[heads[o].value := Some(p)] else prev', L[o := [p] + L[o]])
  {
    assert heads[o] == First(L[o]);
    assert L[o] != [] ==> L[o][0] < MAX_PAGES;
    PushNext(next, L, p, o);
    PushPrev(prev, L, p, o);
  }

  lemma PushNext(next: seq<Link>, L: FreeLists, p: nat, o: nat)
    requires |next| == MAX_PAGES && StartsBounded(L) && NextAgrees(next, L)
    requires o < |L| && p < MAX_PAGES && forall k :: 0 <= k < |L| ==> p !in L[k]
    ensures StartsBounded(L[o := [p] + L[o]])
    ensures NextAgrees(next[p := First(L[o])], L[o := [p] + L[o]])
  {
    var R := L[o := [p] + L[o]];
    forall k, j | 0 <= k < |R| && 0 <= j < |R[k]|
      ensures R[k][j] < MAX_PAGES && next[p := First(L[o])][R[k][j]] == After(R[k], j)
    {
      if k != o || j > 0 {
        var i := if k == o then j - 1 else j;
        assert R[k][j] == L[k][i] && L[k][i] in L[k];
        assert After(R[k], j) == After(L[k], i);
      }
    }
  }

  lemma PushPrev(prev: seq<Link>, L: FreeLists, p: nat, o: nat)
    requires |prev| == MAX_PAGES && StartsBounded(L) && PrevAgrees(prev, L) && StartsDiffer(L)
    requires o < |L| && p < MAX_PAGES && forall k :: 0 <= k < |L| ==> p !in L[k]
    ensures StartsBounded(L[o := [p] + L[o]])
    ensures PrevAgrees(if L[o] == [] then prev[p := None] else prev[p := None][L[o][0] := Some(p)], L[o := [p] + L[o]])
  {
    var R := L[o := [p] + L[o]];
    var after := if L[o] == [] then prev[p := None] else prev[p := None][L[o][0] := Some(p)];
    forall k, j | 0 <= k < |R| && 0 <= j < |R[k]|
      ensures R[k][j] < MAX_PAGES && after[R[k][j]] == Before(R[k], j)
    {
      assert L[o] != [] ==> L[o][0] in L[o];
      if k != o || j > 0 {
        var i := if k == o then j - 1 else j;
        assert R[k][j] == L[k][i] && L[k][i] in L[k];
        assert k == o && i > 0 ==> Before(R[k], j) == Before(L[k], i);
      }
    }
  }

  lemma RemoveAgrees(heads: seq<Link>, next: seq<Link>, prev: seq<Link>, L: FreeLists, o: nat, i: nat)
    requires LinksAgree(heads, next, prev, L) && StartsDiffer(L)
    requires o < MAX_ORDER && i < |L[o]|
    ensures var p := L[o][i];
            && p < MAX_PAGES
            && (prev[p].Some? ==> prev[p].value < MAX_PAGES)
            && (next[p].Some? ==> next[p].value < MAX_PAGES)
    ensures var p := L[o][i];
            var heads' := if prev[p].Some? then heads else heads[o := next[p]];
            var next' := if prev[p].Some? then next[prev[p].value := next[p]] else next;
            var prev' := if next[p].Some? then prev[next[p].value := prev[p]] else prev;
            LinksAgree(heads', next'[p := None], prev'[p := None], L[o := Without(L[o], p)])
  {
    assert prev[L[o][i]] == Before(L[o], i) && next[L[o][i]] == After(L[o], i);
    assert Without(L[o], L[o][i]) == Cut(L[o], i) by { WithoutAt(L[o], i); }
    hide NextAgrees, PrevAgrees, StartsDiffer, Without;
    RemoveNext(next, L, o, i);
    RemovePrev(prev, L, o, i);
  }

  lemma RemoveNext(next: seq<Link>, L: FreeLists, o: nat, i: nat)
    requires |next| == MAX_PAGES && StartsBounded(L) && NextAgrees(next, L) && StartsDiffer(L)
    requires o < |L| && i < |L[o]|
    ensures StartsBounded(L[o := Cut(L[o], i)])
    ensures NextAgrees((if i > 0 then next[L[o][i - 1] := After(L[o], i)] else next)[L[o][i] := None], L[o := Cut(L[o], i)])
  {
    hide StartsDiffer, After, Cut;
    var R := L[o := Cut(L[o], i)];
    var mid := if i > 0 then next[L[o][i - 1] := After(L[o], i)] else next;
    forall k, j | 0 <= k < |R| && 0 <= j < |R[k]|
      ensures R[k][j] < MAX_PAGES && mid[L[o][i] := None][R[k][j]] == After(R[k], j)
    {
      if k == o {
        NoDupIn(L, o);
        RemoveNextHere(next, L[o], i, j);
      } else {
        Elsewhere(L, o, i, k, j);
        if i > 0 { Elsewhere(L, o, i - 1, k, j); }
      }
    }
  }

  lemma NoDupIn(L: FreeLists, o: nat)
    requires StartsDiffer(L) && o < |L|
    ensures NoDup(L[o])
  {}

  lemma RemoveNextHere(next: seq<Link>, s: seq<nat>, i: nat, j: nat)
    requires NoDup(s) && i < |s| && j < |Cut(s, i)|
    requires forall m :: 0 <= m < |s| ==> s[m] < |next| && next[s[m]] == After(s, m)
    ensures Cut(s, i)[j] < |next|
    ensures (if i > 0 then next[s[i - 1] := After(s, i)] else next)[s[i] := None][Cut(s, i)[j]] == After(Cut(s, i), j)
  {
    CutAt(s, i, j);
  }

  lemma RemovePrev(prev: seq<Link>, L: FreeLists, o: nat, i: nat)
    requires |prev| == MAX_PAGES && StartsBounded(L) && PrevAgrees(prev, L) && StartsDiffer(L)
    requires o < |L| && i < |L[o]|
    ensures StartsBounded(L[o := Cut(L[o], i)])
    ensures PrevAgrees((if i < |L[o]| - 1 then prev[L[o][i + 1] := Before(L[o], i)] else prev)[L[o][i] := None], L[o := Cut(L[o], i)])
  {
    var R := L[o := Cut(L[o], i)];
    var mid := if i < |L[o]| - 1 then prev[L[o][i + 1] := Before(L[o], i)] else prev;
    forall k, j | 0 <= k < |R| && 0 <= j < |R[k]|
      ensures R[k][j] < MAX_PAGES && mid[L[o][i] := None][R[k][j]] == Before(R[k], j)
    {
      if k == o {
        CutAt(L[o], i, j);
      } else {
        Elsewhere(L, o, i, k, j);
        if i < |L[o]| - 1 { Elsewhere(L, o, i + 1, k, j); }
      }
    }
  }

  /** `s` without the element at index `i`. */
  function Cut(s: seq<nat>, i: nat): seq<nat>
    requires i < |s|
  {
    s[..i] + s[i + 1..]
  }

  /** Neighbours in a list from which element `i` was cut. */
  lemma CutAt(s: seq<nat>, i: nat, j: nat)
    requires i < |s| && j < |s| - 1
    ensures var m := if j < i then j else j + 1;
            && Cut(s, i)[j] == s[m]
            && After(Cut(s, i), j) == (if m == i - 1 then After(s, i) else After(s, m))
            && Before(Cut(s, i), j) == (if m == i + 1 then Before(s, i) else Before(s, m))
  {}

  /** Different lists start different blocks. */
  lemma Elsewhere(L: FreeLists, o: nat, i: nat, k: nat, j: nat)
    requires StartsDiffer(L) && o < |L| && k < |L| && o != k && i < |L[o]| && j < |L[k]|
    ensures L[o][i] != L[k][j]
  {
    assert L[o][i] in L[o] && L[k][j] in L[k];
  }

  class BuddyAllocator {
    const freeLists: array<Link>
    const bitmap: array<bv8>
    // the `next` and `prev` words at the start of every page
    const next: array<Link>
    const prev: array<Link>
    var offset: nat
    /** The block starts of each order, most recently listed first. */
    ghost var lists: FreeLists

    ghost predicate Shape()
      reads this
    {
      && freeLists.Length == MAX_ORDER && bitmap.Length == BITMAP_SIZE
      && next.Length == prev.Length == MAX_PAGES
      && freeLists != next && freeLists != prev && next != prev
      && |lists| == MAX_ORDER
    }

    ghost predicate Linked()
      reads this, freeLists, next, prev
    {
      Shape() && LinksAgree(freeLists[..], next[..], prev[..], lists)
    }

    ghost predicate Mapped()
      reads this, bitmap
    {
      Shape() && BitsAgree(bitmap[..], lists)
    }

    /** The global invariant: lists, links and bitmap describe one coalesced family of blocks. */
    ghost predicate Valid()
      reads this, freeLists, bitmap, next, prev
    {
      Linked() && Mapped() && Inv(lists) && offset > 0 && offset % PAGE_SIZE == 0
    }

    ghost function Repr(): set<object>
    {
      {this, freeLists, bitmap, next, prev}
    }

    /** The allocator as `init_heap` leaves it: empty lists, the zeroed bitmap, the offset set. */
    constructor (offset: nat)
      requires offset > 0 && offset % PAGE_SIZE == 0
      ensures Valid() && fresh(Repr())
      ensures this.offset == offset && lists == seq(MAX_ORDER, _ => [])
    {
      freeLists := new Link[MAX_ORDER](_ => None);
      bitmap := new bv8[BITMAP_SIZE](_ => 0);
      next := new Link[MAX_PAGES](_ => None);
      prev := new Link[MAX_PAGES](_ => None);
      this.offset := offset;
      lists := seq(MAX_ORDER, _ => []);
      new;
      forall o, p: nat | 0 <= o < TOP && p < MAX_PAGES && Aligned(p, o)
        ensures BitIndex(p, o) < 8 * BITMAP_SIZE && !TestBit(bitmap[..], BitIndex(p, o))
      {
        BitIndexInjective(p, o, p, o);
        ZeroBits(bitmap[..], BitIndex(p, o));
      }
    }

    predicate InRange(ptr: nat)
      reads this`offset
    {
      offset <= ptr < offset + MAX_PAGES * PAGE_SIZE
    }

    /** The page a managed address lies in. */
    function PageOf(ptr: nat): (p: nat)
      requires InRange(ptr)
      reads this`offset
      ensures p < MAX_PAGES
    {
      (ptr - offset) / PAGE_SIZE
    }

    function Address(p: nat): (a: nat)
      reads this`offset
      ensures p < MAX_PAGES ==> InRange(a) && (a - offset) % PAGE_SIZE == 0 && PageOf(a) == p
    {
      offset + p * PAGE_SIZE
    }

    /** A page-aligned managed address is determined by its page. */
    lemma AddressOf(ptr: nat)
      requires InRange(ptr) && (ptr - offset) % PAGE_SIZE == 0
      ensures ptr == Address(PageOf(ptr))
    {}

    lemma AddressOrder(p: nat, q: nat)
      ensures Address(p) < Address(q) <==> p < q
    {}

    static method GetBitIndex(pageIdx: nat, order: nat) returns (i: nat)
      requires order < TOP
      ensures i == BitIndex(pageIdx, order)
    {
      var off := 0;
      for k := 0 to order
        invariant off == MAX_PAGES - Shr(MAX_PAGES, k)
      {
        ShrMaxPages(k);
        ShrMaxPages(k + 1);
        off := off + Shr(MAX_PAGES, k + 1);
      }
      ShrMaxPages(order);
      i := off + Shr(pageIdx, order + 1);
    }

    method ToggleBit(pageIdx: nat, order: nat) returns (b: bool)
      requires bitmap.Length == BITMAP_SIZE && order < TOP && pageIdx < MAX_PAGES
      modifies bitmap
      ensures BitIndex(pageIdx, order) < 8 * BITMAP_SIZE
      ensures bitmap[..] == FlipBit(old(bitmap[..]), BitIndex(pageIdx, order))
      ensures b == !TestBit(old(bitmap[..]), BitIndex(pageIdx, order))
    {
      var bitIdx := GetBitIndex(pageIdx, order);
      BitIndexInjective(pageIdx, order, pageIdx, order);
      var byteIdx := bitIdx / 8;
      var bitOffset := bitIdx % 8;
      FlipOne(bitmap[..], bitIdx, bitIdx);
      bitmap[byteIdx] := bitmap[byteIdx] ^ (1 << bitOffset);
      b := bitmap[byteIdx] & (1 << bitOffset) != 0;
    }

    /** XOR on the address of an aligned block gives the address of its buddy. */
    function BuddyAddress(ptr: nat, order: nat): (r: nat)
      requires offset <= ptr
      reads this`offset
      ensures InRange(ptr) && (ptr - offset) % PAGE_SIZE == 0 ==> r == Address(Buddy(PageOf(ptr), order))
    {
      assert (ptr - offset) % PAGE_SIZE == 0 ==>
          Xor(ptr - offset, Pow2(order) * PAGE_SIZE) == Buddy((ptr - offset) / PAGE_SIZE, order) * PAGE_SIZE by {
        assert Pow2(12) == PAGE_SIZE;
        XorScales((ptr - offset) / PAGE_SIZE, Pow2(order), 12);
      }
      Xor(ptr - offset, Pow2(order) * PAGE_SIZE) + offset
    }

    method PushFree(p: nat, order: nat)
      requires Linked() && StartsDiffer(lists) && order < MAX_ORDER && p < MAX_PAGES
      requires forall k :: 0 <= k < MAX_ORDER ==> p !in lists[k]
      modifies this`lists, freeLists, next, prev
      ensures Linked() && lists == old(lists)[order := [p] + old(lists)[order]]
    {
      hide StartsDiffer, NextAgrees, PrevAgrees, HeadsAgree;
      PushAgrees(freeLists[..], next[..], prev[..], lists, p, order);
      prev[p] := None;
      next[p] := freeLists[order];
      if freeLists[order].Some? {
        prev[freeLists[order].value] := Some(p);
      }
      freeLists[order] := Some(p);
      lists := lists[order := [p] + lists[order]];
    }

    method RemoveFrame(p: nat, order: nat)
      requires Linked() && StartsDiffer(lists) && order < MAX_ORDER && p in lists[order]
      modifies this`lists, freeLists, next, prev
      ensures Linked() && lists == old(lists)[order := Without(old(lists)[order], p)]
    {
      hide StartsDiffer, NextAgrees, PrevAgrees, HeadsAgree, Without, After, Before;
      ghost var i :| 0 <= i < |lists[order]| && lists[order][i] == p;
      RemoveAgrees(freeLists[..], next[..], prev[..], lists, order, i);
      if prev[p].Some? {
        next[prev[p].value] := next[p];
      } else {
        freeLists[order] := next[p];
      }
      if next[p].Some? {
        prev[next[p].value] := prev[p];
      }
      next[p] := None;
      prev[p] := None;
      lists := lists[order := Without(lists[order], p)];
    }

    method Alloc(order: nat) returns (r: Option<nat>)
      requires Valid()
      modifies this`lists, freeLists, bitmap, next, prev
      ensures Valid()
      ensures Take(old(lists), order).None? ==> r.None? && lists == old(lists)
      ensures Take(old(lists), order).Some? ==>
                var (p, R) := Take(old(lists), order).value; r == Some(Address(p)) && lists == R
      decreases MAX_ORDER - order
    {
      hide Inv, LinksAgree, BitsAgree, StartsDiffer, Unfree, Vacant, Aligned, TestBit, FlipBit, PageOf, Address, BuddyAddress;
      if order >= MAX_ORDER {
        return None;
      }
      LinkedHead(freeLists[..], next[..], prev[..], lists, order);
      if freeLists[order].Some? {
        var p := freeLists[order].value;
        HeadStep(lists, bitmap[..], order);
        RemoveFrame(p, order);
        if order < MAX_ORDER - 1 {
          var _ := ToggleBit(p, order);
        }
        return Some(Address(p));
      }
      var q := Alloc(order + 1);
      if q.Some? {
        var ptr := q.value;
        SplitStepBits(old(lists), bitmap[..], order);
        var p := PageOf(ptr);
        var b := PageOf(BuddyAddress(ptr, order));
        var _ := ToggleBit(p, order);
        PushFree(b, order);
        return Some(ptr);
      }
      return None;
    }

    method Dealloc(ptr: nat, order: nat)
      requires Valid()
      requires InRange(ptr) ==>
                 && (ptr - offset) % PAGE_SIZE == 0 && order < MAX_ORDER
                 && Aligned(PageOf(ptr), order) && Unfree(lists, PageOf(ptr), order)
      modifies this`lists, freeLists, bitmap, next, prev
      ensures Valid()
      ensures lists == if InRange(ptr) then Release(old(lists), PageOf(ptr), order) else old(lists)
      decreases MAX_ORDER - order
    {
      hide Inv, LinksAgree, BitsAgree, StartsDiffer, Unfree, Vacant, Aligned, TestBit, FlipBit, PageOf, Address, BuddyAddress;
      if ptr < offset || ptr >= offset + MAX_PAGES * PAGE_SIZE {
        return;
      }
      var p := PageOf(ptr);
      UnfreeVacant(lists, p, order);
      if order >= MAX_ORDER - 1 {
        ListStepBits(lists, bitmap[..], p, order);
        PushFree(p, order);
        return;
      }
      PairStepBits(lists, bitmap[..], p, order);
      var isNowOne := ToggleBit(p, order);
      if isNowOne {
        ListStepBits(lists, old(bitmap[..]), p, order);
        PushFree(p, order);
      } else {
        var buddyAddr := BuddyAddress(ptr, order);
        MergeStepBits(lists, old(bitmap[..]), p, order);
        var b := PageOf(buddyAddr);
        AddressOf(ptr);
        AddressOrder(p, b);
        RemoveFrame(b, order);
        var mergedAddr := if ptr < buddyAddr then ptr else buddyAddr;
        Dealloc(mergedAddr, order + 1);
      }
    }

    method AddFrame(frame: nat)
      requires Valid()
      requires InRange(frame) ==> (frame - offset) % PAGE_SIZE == 0 && !Free(lists, PageOf(frame))
      modifies this`lists, freeLists, bitmap, next, prev
      ensures Valid()
      ensures lists == if InRange(frame) then Release(old(lists), PageOf(frame), 0) else old(lists)
    {
      if frame < offset || frame >= offset + MAX_PAGES * PAGE_SIZE {
        return;
      }
      SinglePage(lists, PageOf(frame));
      Dealloc(frame, 0);
    }

    /** One 4 KiB frame, as a physical address. */
    method AllocateFrame() returns (r: Option<nat>)
      requires Valid()
      modifies this`lists, freeLists, bitmap, next, prev
      ensures Valid()
      ensures Take(old(lists), 0).None? ==> r.None? && lists == old(lists)
      ensures Take(old(lists), 0).Some? ==>
                var (p, R) := Take(old(lists), 0).value; r == Some(p * PAGE_SIZE) && lists == R
    {
      var q := Alloc(0);
      if q.None? {
        return None;
      }
      r := Some(q.value - offset);
    }
  }

  // ----- bitmap and lists move together

  lemma UnfreeVacant(L: FreeLists, p: nat, o: nat)
    requires Inv(L) && Aligned(p, o) && Unfree(L, p, o)
    ensures Vacant(L, p, o)
  {
    VacantIffUnfree(L, p, o);
  }

  lemma VacantUnlisted(L: FreeLists, p: nat, o: nat)
    requires Inv(L) && Vacant(L, p, o) && Aligned(p, o)
    ensures forall k :: 0 <= k < MAX_ORDER ==> p !in L[k]
  {
    VacantIffUnfree(L, p, o);
    assert InBlock(p, p, o);
    forall k | 0 <= k < MAX_ORDER ensures p !in L[k] {
      assert AlignDown(p, k) !in L[k];
    }
  }

  /** Taking the head of a list clears its pair's bit. */
  lemma HeadStep(L: FreeLists, bytes: seq<bv8>, o: nat)
    requires Inv(L) && |bytes| == BITMAP_SIZE && BitsAgree(bytes, L) && o < MAX_ORDER && L[o] != []
    ensures var p := L[o][0];
            var R := L[o := Without(L[o], p)];
            && StartsDiffer(L) && p in L[o] && p < MAX_PAGES
            && Take(L, o) == Some((p, R)) && Inv(R)
            && (o < TOP ==> BitIndex(p, o) < 8 * BITMAP_SIZE && BitsAgree(FlipBit(bytes, BitIndex(p, o)), R))
            && (o >= TOP ==> BitsAgree(bytes, R))
  {
    var p := L[o][0];
    var R := L[o := Without(L[o], p)];
    InvStartsDiffer(L);
    TakeCorrect(L, o);
    WithoutMembers(L[o], p);
    assert R == L[o := L[o][1..]];
    if o < TOP {
      FlipAgrees(bytes, L, R, p, o);
    } else {
      assert forall k, q: nat :: 0 <= k < TOP ==> PairListed(L, q, k) == PairListed(R, q, k);
    }
  }

  /** Splitting a block sets the bit of the pair it splits into. */
  lemma SplitStepBits(L: FreeLists, bytes: seq<bv8>, o: nat)
    requires Inv(L) && o < MAX_ORDER && L[o] == [] && Take(L, o + 1).Some?
    requires |bytes| == BITMAP_SIZE && BitsAgree(bytes, Take(L, o + 1).value.1)
    ensures o < TOP
    ensures var (p, R) := Take(L, o + 1).value;
            var b := Buddy(p, o);
            var S := R[o := [b] + R[o]];
            && StartsDiffer(R) && p < MAX_PAGES && b < MAX_PAGES && (forall k :: 0 <= k < MAX_ORDER ==> b !in R[k])
            && Inv(S) && BitIndex(p, o) < 8 * BITMAP_SIZE && BitsAgree(FlipBit(bytes, BitIndex(p, o)), S)
  {
    TakeCorrect(L, o + 1);
    var (p, R) := Take(L, o + 1).value;
    var b := Buddy(p, o);
    InvStartsDiffer(R);
    SplitFlips(R, p, o);
    SplitStep(R, p, o);
    FlipAgrees(bytes, R, R[o := [b] + R[o]], p, o);
  }

  /** Listing the upper half of a vacant block turns its pair. */
  lemma SplitFlips(R: FreeLists, p: nat, o: nat)
    requires Inv(R) && o < TOP && Aligned(p, o + 1) && p < MAX_PAGES && Vacant(R, p, o + 1)
    ensures var b := Buddy(p, o);
            var S := R[o := [b] + R[o]];
            && Aligned(p, o) && !PairListed(R, p, o) && PairListed(S, p, o)
            && b < MAX_PAGES && (forall k :: 0 <= k < MAX_ORDER ==> b !in R[k])
  {
    var b := Buddy(p, o);
    UpperHalf(p, o);
    BuddyFacts(p, o);
    MaxPagesIsPow2();
    BlockFits(p, o + 1, PAGE_BITS);
    assert Pow2(o + 1) == 2 * Pow2(o);
    VacantIffUnfree(R, p, o + 1);
    assert InBlock(p, p, o + 1) && InBlock(b, p, o + 1);
    assert AlignDown(p, o) !in R[o];
    assert forall x: nat :: InBlock(x, b, o) ==> InBlock(x, p, o + 1);
    VacantIffUnfree(R, b, o);
    VacantUnlisted(R, b, o);
  }

  /** Before a block is freed its pair's bit says whether its buddy is listed. */
  lemma PairStepBits(L: FreeLists, bytes: seq<bv8>, p: nat, o: nat)
    requires Inv(L) && o < TOP && Aligned(p, o) && p < MAX_PAGES && Vacant(L, p, o)
    requires |bytes| == BITMAP_SIZE && BitsAgree(bytes, L)
    ensures BitIndex(p, o) < 8 * BITMAP_SIZE
    ensures TestBit(bytes, BitIndex(p, o)) <==> Buddy(p, o) in L[o]
  {
    assert AlignDown(p, o) !in L[o];
    assert PairListed(L, p, o) <==> Buddy(p, o) in L[o];
  }

  /** Listing a vacant block whose buddy is not listed sets their bit. */
  lemma ListStepBits(L: FreeLists, bytes: seq<bv8>, p: nat, o: nat)
    requires Inv(L) && o < MAX_ORDER && Aligned(p, o) && p < MAX_PAGES && Vacant(L, p, o)
    requires |bytes| == BITMAP_SIZE && BitsAgree(bytes, L)
    requires o < TOP ==> Buddy(p, o) !in L[o]
    ensures var R := L[o := [p] + L[o]];
            && StartsDiffer(L) && (forall k :: 0 <= k < MAX_ORDER ==> p !in L[k])
            && Release(L, p, o) == R && Inv(R)
            && (o < TOP ==> BitIndex(p, o) < 8 * BITMAP_SIZE && BitsAgree(FlipBit(bytes, BitIndex(p, o)), R))
            && (o >= TOP ==> BitsAgree(bytes, R))
  {
    var R := L[o := [p] + L[o]];
    InvStartsDiffer(L);
    VacantUnlisted(L, p, o);
    ListBlock(L, p, o);
    if o < TOP {
      FlipAgrees(bytes, L, R, p, o);
    } else {
      assert forall k, q: nat :: 0 <= k < TOP ==> PairListed(L, q, k) == PairListed(R, q, k);
    }
  }

  /** Unlisting the buddy to merge with clears their bit. */
  lemma MergeStepBits(L: FreeLists, bytes: seq<bv8>, p: nat, o: nat)
    requires Inv(L) && o < TOP && Aligned(p, o) && p < MAX_PAGES && Vacant(L, p, o)
    requires |bytes| == BITMAP_SIZE && BitsAgree(bytes, L)
    requires Buddy(p, o) in L[o]
    ensures var b := Buddy(p, o);
            var m := if p < b then p else b;
            var R := L[o := Without(L[o], b)];
            && StartsDiffer(L) && b < MAX_PAGES && m < MAX_PAGES
            && Aligned(m, o + 1) && Unfree(R, m, o + 1) && Inv(R)
            && Release(L, p, o) == Release(R, m, o + 1)
            && BitIndex(p, o) < 8 * BITMAP_SIZE && BitsAgree(FlipBit(bytes, BitIndex(p, o)), R)
  {
    var b := Buddy(p, o);
    var m := if p < b then p else b;
    var R := L[o := Without(L[o], b)];
    InvStartsDiffer(L);
    MergeStep(L, p, o);
    VacantIffUnfree(R, m, o + 1);
    assert AlignDown(p, o) !in L[o];
    WithoutMembers(L[o], b);
    FlipAgrees(bytes, L, R, p, o);
  }
}

/** Handing physical memory over: the free frames of the boot allocator are fed, one by one, to
    the frame allocator behind the heap. */
module HandOff {
  import opened Bits
  import opened Seqs
  import opened BuddySpec
  import opened BootRanges
  import opened BootAllocator
  import opened BootRuns
  import opened Bitmap
  import opened Buddy
  import opened SlabCache
  import opened GlobalHeap
  import H = Heap
  import R = HeapRuns
  import S = Slab

  // ----- the frames of the boot allocator

  /** The addresses from `a` in page steps below `b`. */
  function PageSteps(a: nat, b: nat): seq<nat>
    decreases if a < b then b - a else 0
  {
    if a >= b then [] else [a] + PageSteps(a + PAGE_SIZE, b)
  }

  function UsableFrames(rs: seq<Range>): seq<nat> {
    if rs == [] then [] else PageSteps(rs[0].start, rs[0].end) + UsableFrames(rs[1..])
  }

  ghost predicate Ascending(s: seq<nat>) {
    forall i, j :: 0 <= i < j < |s| ==> s[i] < s[j]
  }

  lemma {:induction false} PageStepsExact(a: nat, b: nat)
    requires a % PAGE_SIZE == 0
    ensures Ascending(PageSteps(a, b))
    ensures forall x: nat :: x in PageSteps(a, b) <==> x % PAGE_SIZE == 0 && WithinRange(x, a, b)
    decreases if a < b then b - a else 0
  {
    if a >= b {
    } else {
      PageStepsExact(a + PAGE_SIZE, b);
      var t := PageSteps(a + PAGE_SIZE, b);
      forall i | 0 <= i < |t| ensures a < t[i] { assert t[i] in t; }
      assert forall i :: 0 < i < |PageSteps(a, b)| ==> PageSteps(a, b)[i] == t[i - 1];
      forall x: nat | x % PAGE_SIZE == 0 && WithinRange(x, a, b) ensures x == a || WithinRange(x, a + PAGE_SIZE, b) {}
    }
  }

  /** Each free page is listed exactly once, in ascending order, and nothing else is. */
  lemma {:induction false} UsableFramesExact(rs: seq<Range>)
    requires BootRanges.Valid(rs)
    ensures Ascending(UsableFrames(rs))
    ensures forall x: nat :: x in UsableFrames(rs) <==> x % PAGE_SIZE == 0 && x in Bytes(rs)
  {
    if rs == [] {
    } else {
      assert RangeOk(rs[0]);
      PageStepsExact(rs[0].start, rs[0].end);
      UsableFramesExact(rs[1..]);
      var s, t := PageSteps(rs[0].start, rs[0].end), UsableFrames(rs[1..]);
      forall i, j | 0 <= i < |s| && 0 <= j < |t| ensures s[i] < t[j] {
        assert s[i] in s && t[j] in t;
        TailIsHigher(rs, t[j]);
      }
      assert forall x: nat :: x in s + t <==> x in s || x in t;
    }
  }

  lemma AscendingNoDup(s: seq<nat>)
    requires Ascending(s)
    ensures NoDup(s)
  {}

  // ----- feeding

  /** The heap after the frames at physical addresses `fs` were added in order. */
  ghost function Feed(h: H.Heap, fs: seq<nat>): (t: H.Heap)
    requires |h.lists| == MAX_ORDER
    ensures |t.lists| == MAX_ORDER && t.offset == h.offset && t.live == h.live && t.frames == h.frames && t.caches == h.caches
    decreases |fs|
  {
    if fs == [] then h else H.AddFrame(Feed(h, fs[..|fs| - 1]), h.offset + fs[|fs| - 1])
  }

  /** Page-aligned distinct frames that the heap does not account for yet. */
  ghost predicate NewFrames(h: H.Heap, fs: seq<nat>)
    requires |h.lists| == MAX_ORDER && |h.caches| == 8
  {
    NoDup(fs) && forall i :: 0 <= i < |fs| ==> fs[i] % PAGE_SIZE == 0 && !H.Managed(h, h.offset + fs[i])
  }

  /** Only frames in the first gigabyte are taken. */
  ghost predicate Taken(offset: nat, fs: seq<nat>, a: nat) {
    H.HeapPage(offset, a) && a - offset in fs
  }

  lemma {:induction false} FeedCorrect(h: H.Heap, fs: seq<nat>)
    requires H.HeapInv(h) && NewFrames(h, fs)
    ensures H.HeapInv(Feed(h, fs))
    ensures forall a: nat :: H.Managed(Feed(h, fs), a) <==> H.Managed(h, a) || Taken(h.offset, fs, a)
    decreases |fs|
  {
    hide H.HeapInv, H.Managed, H.HeapPage, H.AddFrame;
    if fs == [] {
    } else {
      var init, f := fs[..|fs| - 1], fs[|fs| - 1];
      FeedCorrect(h, init);
      H.InvShape(h);
      SumAligned(h.offset, f);
      NotYetTaken(h.offset, fs);
      H.AddFrameStep(Feed(h, init), h.offset + f);
    }
  }

  lemma NotYetTaken(offset: nat, fs: seq<nat>)
    requires NoDup(fs) && fs != []
    ensures var init, f := fs[..|fs| - 1], fs[|fs| - 1];
            && !Taken(offset, init, offset + f)
            && forall a: nat :: Taken(offset, fs, a) <==> Taken(offset, init, a) || (a == offset + f && H.HeapPage(offset, a))
  {
    hide H.HeapPage;
    var init, f := fs[..|fs| - 1], fs[|fs| - 1];
    assert f !in init;
    assert fs == init + [f];
    HeapPageAbove(offset);
  }

  lemma HeapPageAbove(offset: nat)
    ensures forall a: nat :: H.HeapPage(offset, a) ==> offset <= a
  {}

  lemma SumAligned(x: nat, y: nat)
    requires x % PAGE_SIZE == 0 && y % PAGE_SIZE == 0
    ensures (x + y) % PAGE_SIZE == 0
  {}

  /** The order in which frames are fed does not matter. */
  lemma FeedOrderIrrelevant(h: H.Heap, fs: seq<nat>, gs: seq<nat>)
    requires H.HeapInv(h) && NewFrames(h, fs) && NewFrames(h, gs) && (forall x :: x in fs <==> x in gs)
    ensures SameBlocks(Feed(h, fs).lists, Feed(h, gs).lists)
  {
    FeedCorrect(h, fs);
    FeedCorrect(h, gs);
    R.LiveRegionsDetermineHeap(Feed(h, fs), Feed(h, gs));
  }

  /** The pages below one gigabyte whose bytes are free at boot. */
  ghost function FreeAtBoot(rs: seq<Range>): set<nat> {
    set p: nat | p < MAX_PAGES && p * PAGE_SIZE in Bytes(rs)
  }

  /** Hand-off agreement: after feeding, the free blocks are exactly the maximal aligned runs of the
      boot allocator's free pages below one gigabyte. */
  lemma HandOffExact(offset: nat, rs: seq<Range>)
    requires BootRanges.Valid(rs) && offset > 0 && offset % PAGE_SIZE == 0
    ensures H.HeapInv(H.EmptyHeap(offset)) && NewFrames(H.EmptyHeap(offset), UsableFrames(rs))
    ensures var t := Feed(H.EmptyHeap(offset), UsableFrames(rs));
            && H.HeapInv(t) && FreePages(t.lists) == FreeAtBoot(rs)
            && forall o, p: nat :: 0 <= o < MAX_ORDER ==> (p in t.lists[o] <==> MaximalRun(FreeAtBoot(rs), p, o))
  {
    hide H.HeapInv, H.Managed, Bytes, BuddySpec.Free, UsableFrames, Feed, BootRanges.Valid;
    var h := H.EmptyHeap(offset);
    var fs := UsableFrames(rs);
    R.EmptyHeapInv(offset);
    UsableFramesExact(rs);
    AscendingNoDup(fs);
    forall i | 0 <= i < |fs| ensures fs[i] % PAGE_SIZE == 0 { assert fs[i] in fs; }
    FeedCorrect(h, fs);
    var t := Feed(h, fs);
    forall p: nat | p < MAX_PAGES ensures BuddySpec.Free(t.lists, p) <==> p * PAGE_SIZE in Bytes(rs) {
      FedPage(t, fs, p);
      assert (p * PAGE_SIZE) % PAGE_SIZE == 0;
    }
    H.InvShape(t);
    CanonicalForm(t.lists);
  }

  lemma FedPage(t: H.Heap, fs: seq<nat>, p: nat)
    requires H.HeapInv(t) && t.caches == H.EmptyHeap(t.offset).caches && t.live == map[] && t.frames == {}
    requires p < MAX_PAGES && forall a: nat :: H.Managed(t, a) <==> Taken(t.offset, fs, a)
    ensures |t.lists| == MAX_ORDER && (BuddySpec.Free(t.lists, p) <==> p * PAGE_SIZE in fs)
  {
    hide H.HeapInv, H.Managed, H.EmptyHeap, BuddySpec.Free;
    H.InvShape(t);
    var a := t.offset + p * PAGE_SIZE;
    H.PageAddress(t.offset, p);
    NothingHeld(t, a);
    assert a - t.offset == p * PAGE_SIZE;
  }

  /** In a heap that hands nothing out every managed page is free. */
  lemma NothingHeld(t: H.Heap, a: nat)
    requires H.HeapInv(t) && t.caches == H.EmptyHeap(t.offset).caches && t.live == map[] && t.frames == {}
    ensures H.FreePage(t.offset, t.lists, a) <==> H.Managed(t, a)
  {
    hide H.HeapInv;
    H.InvShape(t);
    R.FreeIffNotHeld(t, a);
  }

  // ----- from the memory map to live regions

  /** The boot allocator after a run from the memory map. */
  ghost predicate BootRun(gs: seq<Region>, bs: seq<BootRuns.Event>) {
    var memory := Bytes(Collect(gs, MAX_RANGES));
    && SoundMap(gs) && BootInv(Initial(gs), memory) && BootRuns.LegalRun(Initial(gs), memory, bs)
    && BootRuns.Final(Initial(gs), memory, bs).Some?
  }

  ghost function BootEnd(gs: seq<Region>, bs: seq<BootRuns.Event>): Boot
    requires BootRun(gs, bs)
  {
    BootRuns.Final(Initial(gs), Bytes(Collect(gs, MAX_RANGES)), bs).value
  }

  /** What was allocated at boot and not given back. */
  ghost function HeldAtBoot(gs: seq<Region>, bs: seq<BootRuns.Event>): set<nat>
    requires BootRun(gs, bs)
  {
    HeldBytes(Initial(gs), Bytes(Collect(gs, MAX_RANGES)), bs, {})
  }

  /** Physical byte `y` belongs to the heap: usable memory below one gigabyte that is free at
      hand-off and that nobody was given at boot. */
  ghost predicate HeapByte(gs: seq<Region>, bs: seq<BootRuns.Event>, y: nat)
    requires BootRun(gs, bs)
  {
    && y < MAX_PAGES * PAGE_SIZE && UsableByte(gs, y)
    && y in Bytes(BootEnd(gs, bs).ranges) && y !in HeldAtBoot(gs, bs)
  }

  lemma BootEndFacts(gs: seq<Region>, bs: seq<BootRuns.Event>, y: nat)
    requires BootRun(gs, bs)
    ensures BootRanges.Valid(BootEnd(gs, bs).ranges)
    ensures y in Bytes(BootEnd(gs, bs).ranges) ==> UsableByte(gs, y) && y !in HeldAtBoot(gs, bs)
  {
    hide Bytes, Initial, Collect, UsableByte, BootRuns.Final, BootRuns.LegalRun, HeldBytes;
    var memory := Bytes(Collect(gs, MAX_RANGES));
    InitialInv(gs);
    assert {} == memory - Bytes(Initial(gs).ranges);
    BootRuns.RunInvariant(Initial(gs), memory, bs);
    RunConservesBytes(Initial(gs), memory, bs, {});
    if y in Bytes(BootEnd(gs, bs).ranges) { CollectedIsUsable(gs, y); }
  }

  /** A page of a valid range list is free as a whole. */
  lemma PageInBytes(rs: seq<Range>, p: nat, y: nat)
    requires BootRanges.Valid(rs) && p % PAGE_SIZE == 0 && p in Bytes(rs) && p <= y < p + PAGE_SIZE
    ensures y in Bytes(rs)
  {
    hide Bytes;
    BytesIff(rs, p);
    var i :| 0 <= i < |rs| && WithinRange(p, rs[i].start, rs[i].end);
    assert RangeOk(rs[i]);
    assert WithinRange(y, rs[i].start, rs[i].end);
    BytesIff(rs, y);
  }

  /** A run of the heap that begins with the hand-off of `rs` and feeds nothing more. */
  ghost predicate HeapRun(offset: nat, rs: seq<Range>, es: seq<R.Event>) {
    && offset > 0 && offset % PAGE_SIZE == 0
    && var h := Feed(H.EmptyHeap(offset), UsableFrames(rs));
    && H.HeapInv(h) && R.LegalRun(h, es) && R.AllFed(offset, es) == {}
  }

  ghost function HeapEnd(offset: nat, rs: seq<Range>, es: seq<R.Event>): (t: H.Heap)
    requires HeapRun(offset, rs, es)
    ensures H.HeapInv(t) && |t.lists| == MAX_ORDER && |t.caches| == 8 && t.offset == offset
  {
    H.InvShape(R.Final(Feed(H.EmptyHeap(offset), UsableFrames(rs)), es));
    R.Final(Feed(H.EmptyHeap(offset), UsableFrames(rs)), es)
  }

  /** At the end of such a run the heap accounts for exactly the pages handed over. */
  lemma ManagedWasHandedOver(offset: nat, rs: seq<Range>, es: seq<R.Event>, page: nat)
    requires BootRanges.Valid(rs) && HeapRun(offset, rs, es)
    ensures H.Managed(HeapEnd(offset, rs, es), page) <==> H.HeapPage(offset, page) && page - offset in Bytes(rs)
  {
    hide H.HeapInv, H.Managed, H.HeapPage, Bytes, UsableFrames, Feed, BootRanges.Valid, R.LegalRun, R.Final, R.AllFed;
    var e := H.EmptyHeap(offset);
    var fs := UsableFrames(rs);
    HandOffExact(offset, rs);
    R.EmptyHeapInv(offset);
    FeedCorrect(e, fs);
    UsableFramesExact(rs);
    R.RunConservesPages(Feed(e, fs), es);
    HeapPageAbove(offset);
    if H.HeapPage(offset, page) { PageOffset(offset, page); }
    assert H.Managed(HeapEnd(offset, rs, es), page) <==> Taken(offset, fs, page);
  }

  /** From the memory map to the heap: whatever the boot allocator did, and whatever the heap was
      asked since the hand-off, every byte of every live region and of every bare frame is a byte
      of usable memory below one gigabyte that no block handed out at boot covers. */
  lemma LiveBytesAreUsable(gs: seq<Region>, bs: seq<BootRuns.Event>, offset: nat, es: seq<R.Event>, a: nat, x: nat)
    requires BootRun(gs, bs) && HeapRun(offset, BootEnd(gs, bs).ranges, es)
    requires var t := HeapEnd(offset, BootEnd(gs, bs).ranges, es);
             || (a in t.live && t.live[a] <= PAGE_SIZE && a <= x < a + H.BlockSize(t.live[a]))
             || (a in t.frames && a <= x < a + PAGE_SIZE)
    ensures x >= offset && HeapByte(gs, bs, x - offset)
  {
    hide H.HeapInv, H.Managed, H.HeapPage, Bytes, BootRanges.Valid, HeapEnd, BootEnd, HeldAtBoot, UsableByte, S.PageBase, BootRun;
    var rs := BootEnd(gs, bs).ranges;
    var t := HeapEnd(offset, rs, es);
    var page := if a in t.live && t.live[a] <= PAGE_SIZE && x < a + H.BlockSize(t.live[a]) then S.PageBase(a) else a;
    HeldIsManaged(t, a);
    BootEndFacts(gs, bs, 0);
    ManagedWasHandedOver(offset, rs, es, page);
    PageOffset(offset, page);
    PageInBytes(rs, page - offset, x - offset);
    BootEndFacts(gs, bs, x - offset);
  }

  lemma PageOffset(offset: nat, page: nat)
    requires offset % PAGE_SIZE == 0 && H.HeapPage(offset, page)
    ensures page % PAGE_SIZE == 0 && page >= offset && (page - offset) % PAGE_SIZE == 0
    ensures page + PAGE_SIZE <= offset + MAX_PAGES * PAGE_SIZE
  {}

  /** The page of a live region and a bare frame are accounted for. */
  lemma HeldIsManaged(t: H.Heap, a: nat)
    requires H.HeapInv(t)
    ensures a in t.live ==> H.Managed(t, S.PageBase(a)) && S.PageBase(a) <= a && a + H.BlockSize(t.live[a]) <= S.PageBase(a) + PAGE_SIZE
    ensures a in t.frames ==> H.Managed(t, a)
  {
    hide S.PageBase, H.FreePage, Inv, S.CacheInv, S.Live;
    if a in t.live {
      H.RegionInPage(t, a);
      if t.live[a] <= H.LARGEST { H.ClassIsTightest(t.live[a]); }
    }
  }

  // ----- the boot allocator after the hand-off

  /** Allocating never makes a byte free. */
  lemma {:induction false} AllocationsShrink(b: Boot, memory: set<nat>, late: seq<BootRuns.Event>)
    requires BootInv(b, memory) && BootRuns.LegalRun(b, memory, late) && forall i :: 0 <= i < |late| ==> late[i].Alloc?
    ensures BootRuns.Final(b, memory, late).Some?
    ensures BootInv(BootRuns.Final(b, memory, late).value, memory) && Bytes(BootRuns.Final(b, memory, late).value.ranges) <= Bytes(b.ranges)
    decreases |late|
  {
    hide BootInv, Bytes, NoOverflow, Allocate;
    if late == [] {
    } else {
      AllocateCorrect(b, memory, late[0].count, late[0].align);
      AllocationsShrink(BootRuns.Step(b, memory, late[0]).value, memory, late[1..]);
    }
  }

  /** The heap accounts for the page that starts at physical address `y`. */
  ghost predicate HeapHas(t: H.Heap, y: nat) {
    |t.lists| == MAX_ORDER && |t.caches| == 8 && H.Managed(t, t.offset + y)
  }

  ghost predicate SharesPage(t: H.Heap, a: nat, size: nat) {
    exists y: nat :: WithinRange(y, a, a + size) && HeapHas(t, y)
  }

  /** A block with a page that was handed over: free at hand-off and below one gigabyte. */
  ghost predicate HandedOver(rs: seq<Range>, a: nat, size: nat) {
    exists y: nat :: WithinRange(y, a, a + size) && HandedPage(rs, y)
  }

  ghost predicate HandedPage(rs: seq<Range>, y: nat) {
    y % PAGE_SIZE == 0 && y < MAX_PAGES * PAGE_SIZE && y in Bytes(rs)
  }

  /** The boot allocator keeps counting the frames it handed over as free. A block, wherever it comes
      from, shares a page with the heap exactly when one of its pages was handed over. */
  lemma SharesIffHandedOver(rs: seq<Range>, offset: nat, es: seq<R.Event>, a: nat, size: nat)
    requires BootRanges.Valid(rs) && HeapRun(offset, rs, es)
    ensures SharesPage(HeapEnd(offset, rs, es), a, size) <==> HandedOver(rs, a, size)
  {
    hide BootRanges.Valid, HeapRun, HeapEnd, HeapHas, HandedPage;
    var t := HeapEnd(offset, rs, es);
    if y: nat :| WithinRange(y, a, a + size) && HeapHas(t, y) {
      HeapHasHanded(rs, offset, es, y);
    }
    if y: nat :| WithinRange(y, a, a + size) && HandedPage(rs, y) {
      HeapHasHanded(rs, offset, es, y);
    }
  }

  lemma HeapHasHanded(rs: seq<Range>, offset: nat, es: seq<R.Event>, y: nat)
    requires BootRanges.Valid(rs) && HeapRun(offset, rs, es)
    ensures HeapHas(HeapEnd(offset, rs, es), y) <==> HandedPage(rs, y)
  {
    hide BootRanges.Valid, HeapEnd, H.Managed, H.HeapInv, R.LegalRun, R.AllFed, Bytes, Feed, UsableFrames;
    ManagedWasHandedOver(offset, rs, es, offset + y);
    PageFrom(offset, y);
  }

  lemma PageFrom(offset: nat, y: nat)
    requires offset % PAGE_SIZE == 0
    ensures H.HeapPage(offset, offset + y) <==> y % PAGE_SIZE == 0 && y < MAX_PAGES * PAGE_SIZE
  {}

  /** The boot allocator at hand-off, after `late` more events, and about to serve a request. */
  ghost predicate LateRequest(b: Boot, memory: set<nat>, late: seq<BootRuns.Event>, count: nat, align: nat) {
    && BootInv(b, memory) && BootRuns.LegalRun(b, memory, late) && BootRuns.Final(b, memory, late).Some?
    && Request(BootRuns.Final(b, memory, late).value, memory, count, align)
  }

  ghost function Late(b: Boot, memory: set<nat>, late: seq<BootRuns.Event>, count: nat, align: nat): (end: Boot)
    requires LateRequest(b, memory, late, count, align)
    ensures Request(end, memory, count, align) && NoOverflow(end, count, align) && align > 0
  {
    RoundingRoom(0, align);
    BootRuns.Final(b, memory, late).value
  }

  /** The next block shares a page with the heap. */
  ghost predicate NextClashes(b: Boot, end: Boot, count: nat, align: nat, offset: nat, es: seq<R.Event>)
    requires HeapRun(offset, b.ranges, es) && NoOverflow(end, count, align)
  {
    var r := Allocate(end, count, align).0;
    r.Some? && SharesPage(HeapEnd(offset, b.ranges, es), r.value, count * PAGE_SIZE)
  }

  /** The lowest place where the block fits one free range. */
  ghost predicate LowestFit(rs: seq<Range>, x: nat, size: nat, align: nat)
    requires align > 0
  {
    && (exists i: nat :: FitsAt(rs, i, x, size, align))
    && (forall i: nat, z: nat :: FitsAt(rs, i, z, size, align) ==> x <= z)
  }

  /** After any legal events since the hand-off, frees included: the next block clashes if and only if
      a page was handed over at the lowest place where the block fits. */
  lemma LateBlocksClash(b: Boot, memory: set<nat>, late: seq<BootRuns.Event>, count: nat, align: nat, offset: nat, es: seq<R.Event>)
    requires LateRequest(b, memory, late, count, align) && HeapRun(offset, b.ranges, es)
    ensures var end := Late(b, memory, late, count, align);
            NextClashes(b, end, count, align, offset, es) <==>
              exists x: nat :: LowestFit(end.ranges, x, count * PAGE_SIZE, align) && HandedOver(b.ranges, x, count * PAGE_SIZE)
  {
    hide HeapRun, HeapEnd, Allocate, NoOverflow, BootRanges.Valid, SharesPage, HandedOver, Late, FitsAt, Request;
    BootValid(b, memory);
    var end := Late(b, memory, late, count, align);
    AllocateLowest(end, memory, count, align);
    var r := Allocate(end, count, align).0;
    if r.Some? {
      SharesIffHandedOver(b.ranges, offset, es, r.value, count * PAGE_SIZE);
      assert LowestFit(end.ranges, r.value, count * PAGE_SIZE, align);
    }
    if x: nat :| LowestFit(end.ranges, x, count * PAGE_SIZE, align) && HandedOver(b.ranges, x, count * PAGE_SIZE) {
      assert r.Some? && r.value == x;
    }
  }

  /** If only allocations happened since the hand-off: the next block clashes if and only if the block
      fits somewhere below one gigabyte. */
  lemma LateAllocationsClash(b: Boot, memory: set<nat>, late: seq<BootRuns.Event>, count: nat, align: nat, offset: nat, es: seq<R.Event>)
    requires LateRequest(b, memory, late, count, align) && HeapRun(offset, b.ranges, es)
    requires forall i :: 0 <= i < |late| ==> late[i].Alloc?
    ensures var end := Late(b, memory, late, count, align);
            NextClashes(b, end, count, align, offset, es) <==>
              exists i: nat, x: nat :: FitsAt(end.ranges, i, x, count * PAGE_SIZE, align) && x < MAX_PAGES * PAGE_SIZE
  {
    hide BootInv, HeapRun, HeapEnd, Allocate, NoOverflow, BootRanges.Valid, SharesPage, HandedOver, BootRuns.LegalRun, BootRuns.Final, Bytes, Interval, FitsAt, PowerOfTwo;
    BootValid(b, memory);
    AllocationsShrink(b, memory, late);
    var end := Late(b, memory, late, count, align);
    AllocateLowest(end, memory, count, align);
    AllocateCorrect(end, memory, count, align);
    var r := Allocate(end, count, align).0;
    if r.Some? {
      SharesIffHandedOver(b.ranges, offset, es, r.value, count * PAGE_SIZE);
      FreeBlockHandedOver(b.ranges, r.value, count * PAGE_SIZE);
    }
  }

  /** A block of pages free at hand-off was handed over in part if and only if it starts below one
      gigabyte. */
  lemma FreeBlockHandedOver(rs: seq<Range>, a: nat, size: nat)
    requires size > 0 && a % PAGE_SIZE == 0 && Interval(a, a + size) <= Bytes(rs)
    ensures HandedOver(rs, a, size) <==> a < MAX_PAGES * PAGE_SIZE
  {
    hide Bytes;
    FirstByte(a, size);
    if a < MAX_PAGES * PAGE_SIZE {
      assert HandedPage(rs, a);
    }
  }

  /** A block that clashes: with one usable page at address 0, the page handed over is also the first
      the boot allocator hands out afterwards. */
  lemma LateClashExample(offset: nat)
    requires offset > 0 && offset % PAGE_SIZE == 0
    ensures var b := Initial(Regions(FirstPage()));
            && NoOverflow(b, 1, PAGE_SIZE) && Allocate(b, 1, PAGE_SIZE).0 == Some(0)
            && HeapRun(offset, b.ranges, []) && NextClashes(b, b, 1, PAGE_SIZE, offset, [])
  {
    hide BootInv, Bytes, Initial, NoOverflow, Allocate, BootRanges.Valid, HeapRun, HeapEnd, SharesPage, HandedOver, Regions, FirstPage;
    var b := Initial(Regions(FirstPage()));
    FirstPageStart();
    BootValid(b, Bytes(FirstPage()));
    FreshHeapRun(offset, b.ranges);
    SharesIffHandedOver(b.ranges, offset, [], 0, PAGE_SIZE);
    assert Interval(0, 0 + PAGE_SIZE) <= Bytes(b.ranges) by { AllocateCorrect(b, Bytes(FirstPage()), 1, PAGE_SIZE); }
    FreeBlockHandedOver(b.ranges, 0, PAGE_SIZE);
  }

  /** A block below one gigabyte that does not clash: the same page, taken before the hand-off, given
      back after it, and handed out again. */
  lemma LateReuseExample(offset: nat)
    requires offset > 0 && offset % PAGE_SIZE == 0
    ensures var first := Initial(Regions(FirstPage()));
            && NoOverflow(first, 1, PAGE_SIZE)
            && var b := Allocate(first, 1, PAGE_SIZE).1;
            && CanFree(b, Bytes(FirstPage()), 0, 1) && BootRuns.Free(b, 0, 1) == Done(first)
            && Allocate(first, 1, PAGE_SIZE).0 == Some(0)
            && HeapRun(offset, b.ranges, []) && !NextClashes(b, first, 1, PAGE_SIZE, offset, [])
  {
    hide BootInv, Bytes, Initial, NoOverflow, Allocate, BootRuns.Free, CanFree, BootRanges.Valid, HeapRun, HeapEnd, SharesPage, Regions;
    var first := Initial(Regions(FirstPage()));
    FirstPageStart();
    var b := Allocate(first, 1, PAGE_SIZE).1;
    NothingValid();
    FreshHeapRun(offset, []);
    SharesIffHandedOver([], offset, [], 0, PAGE_SIZE);
    NoBytes();
    AllocateThenFree(first, Bytes(FirstPage()), 1, PAGE_SIZE);
  }

  lemma NothingValid()
    ensures BootRanges.Valid([])
  {}

  lemma FreshHeapRun(offset: nat, rs: seq<Range>)
    requires BootRanges.Valid(rs) && offset > 0 && offset % PAGE_SIZE == 0
    ensures HeapRun(offset, rs, [])
  {
    hide BootRanges.Valid, UsableFrames, H.HeapInv, Feed;
    HandOffExact(offset, rs);
  }

  lemma FirstByte(a: nat, size: nat)
    requires size > 0
    ensures WithinRange(a, a, a + size) && a in Interval(a, a + size)
  {}

  /** The feeding loop of kernel start-up. */
  method FeedHeap(boot: BootInfoFrameAllocator, heap: SlubAllocator, physMemOffset: nat, ghost memory: set<nat>)
    requires boot.Valid(memory) && heap.Valid() && heap.pages != null
    requires physMemOffset > 0 && physMemOffset % PAGE_SIZE == 0 && heap.View() == H.EmptyHeap(physMemOffset)
    modifies heap.pages.Repr()
    ensures heap.Valid() && heap.pages == old(heap.pages) && boot.Valid(memory)
    ensures heap.View() == Feed(H.EmptyHeap(physMemOffset), UsableFrames(boot.Active()))
    ensures FreePages(heap.pages.lists) == FreeAtBoot(boot.Active())
  {
    hide H.HeapInv, H.Managed, UsableFrames, FreePages, FreeAtBoot, BootInv, MaximalRun;
    var frames := UsableFrames(boot.Active());
    ghost var h := heap.View();
    assert BootRanges.Valid(boot.Active()) by { BootValid(boot.View(), memory); }
    HandOffExact(physMemOffset, boot.Active());
    FeedFrames(heap, physMemOffset, frames);
  }

  /** Add the frames one by one, by virtual address. */
  method FeedFrames(heap: SlubAllocator, physMemOffset: nat, frames: seq<nat>)
    requires heap.Valid() && heap.pages != null && heap.pages.offset == physMemOffset
    requires H.HeapInv(heap.View()) && NewFrames(heap.View(), frames)
    modifies heap.pages.Repr()
    ensures heap.Valid() && heap.pages == old(heap.pages)
    ensures heap.View() == Feed(old(heap.View()), frames)
  {
    hide H.HeapInv, H.Managed, BuddySpec.Inv, LinksAgree, BitsAgree, S.CacheInv, NewFrames, Feed, H.AddFrame, Represents;
    ghost var h := heap.View();
    FeedNone(h, frames);
    for i := 0 to |frames|
      invariant heap.Valid() && heap.pages == old(heap.pages)
      invariant heap.View() == Feed(h, frames[..i])
    {
      FeedNext(h, frames, i);
      heap.AddFrame(physMemOffset + frames[i]);
    }
    assert frames[..|frames|] == frames;
  }

  lemma FeedNone(h: H.Heap, fs: seq<nat>)
    requires |h.lists| == MAX_ORDER
    ensures Feed(h, fs[..0]) == h
  {}

  lemma BootValid(b: Boot, memory: set<nat>)
    requires BootInv(b, memory)
    ensures BootRanges.Valid(b.ranges)
  {}

  /** The next frame of a feeding loop is still unaccounted for. */
  lemma FeedNext(h: H.Heap, fs: seq<nat>, i: nat)
    requires H.HeapInv(h) && NewFrames(h, fs) && i < |fs|
    ensures (h.offset + fs[i]) % PAGE_SIZE == 0 && !H.Managed(Feed(h, fs[..i]), h.offset + fs[i])
    ensures Feed(h, fs[..i + 1]) == H.AddFrame(Feed(h, fs[..i]), h.offset + fs[i])
  {
    hide H.HeapInv, H.Managed, H.HeapPage, Feed;
    FeedCorrect(h, fs[..i]);
    H.InvShape(h);
    SumAligned(h.offset, fs[i]);
    FeedStep(h, fs, i);
    assert fs[..i + 1][..i] == fs[..i];
    NotYetTaken(h.offset, fs[..i + 1]);
  }

  lemma FeedStep(h: H.Heap, fs: seq<nat>, i: nat)
    requires |h.lists| == MAX_ORDER && i < |fs|
    ensures Feed(h, fs[..i + 1]) == H.AddFrame(Feed(h, fs[..i]), h.offset + fs[i])
  {
    hide H.AddFrame;
    assert fs[..i + 1][..i] == fs[..i];
  }
}

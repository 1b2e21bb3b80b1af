/** Whole runs of the global heap: safety of every reachable state, page conservation, what is left
    when everything is freed, and when a request fails. */
module HeapRuns {
  import opened Bits
  import opened Blocks
  import opened Seqs
  import opened BuddySpec
  import opened Heap
  import opened HeapExtents
  import S = Slab

  datatype Event =
    | Request(size: nat, align: nat)
    | Free(ptr: nat, size: nat)
    | RequestFrame
    | Feed(addr: nat)

  /** What callers owe: regions are freed once, with the size they were asked for, and only page
      addresses the heap does not account for yet are fed in. */
  ghost predicate Legal(h: Heap, e: Event)
    requires HeapInv(h)
  {
    match e
    case Request(_, _) => true
    case Free(ptr, size) => CanFree(h, ptr, size)
    case RequestFrame => true
    case Feed(a) => a % PAGE_SIZE == 0 && (HeapPage(h.offset, a) ==> !Managed(h, a))
  }

  ghost function Step(h: Heap, e: Event): (t: Heap)
    requires HeapInv(h) && Legal(h, e)
    ensures HeapInv(t) && t.offset == h.offset
  {
    StepInv(h, e);
    match e
    case Request(size, _) => Alloc(h, size).1
    case Free(ptr, size) => Dealloc(h, ptr, size)
    case RequestFrame => AllocFrame(h).1
    case Feed(a) => AddFrame(h, a)
  }

  /** The pages an event feeds in. */
  ghost function Fed(offset: nat, e: Event): set<nat> {
    if e.Feed? && HeapPage(offset, e.addr) then {e.addr} else {}
  }

  /** Every legal event keeps the invariant and conserves pages. */
  lemma StepInv(h: Heap, e: Event)
    requires HeapInv(h) && Legal(h, e)
    ensures Ready(h) && (e.Free? ==> FreeReady(h, e.ptr, e.size))
    ensures var t := match e
                     case Request(size, _) => Alloc(h, size).1
                     case Free(ptr, size) => Dealloc(h, ptr, size)
                     case RequestFrame => AllocFrame(h).1
                     case Feed(a) => AddFrame(h, a);
            && HeapInv(t) && t.offset == h.offset
            && (forall a :: Managed(t, a) <==> Managed(h, a) || a in Fed(h.offset, e))
  {
    hide HeapInv, Managed;
    InvReady(h);
    match e
    case Request(size, _) =>
      if size <= LARGEST {
        AllocSmall(h, size);
      } else if size <= PAGE_SIZE && Take(h.lists, 0).Some? {
        AllocLarge(h, size);
      }
    case Free(ptr, size) =>
      if size <= LARGEST { DeallocSmall(h, ptr); } else { DeallocLarge(h, ptr); }
    case RequestFrame => AllocFrameStep(h);
    case Feed(a) => AddFrameStep(h, a);
  }

  ghost predicate LegalRun(h: Heap, es: seq<Event>)
    requires HeapInv(h)
    decreases |es|
  {
    es == [] || (Legal(h, es[0]) && LegalRun(Step(h, es[0]), es[1..]))
  }

  ghost function Final(h: Heap, es: seq<Event>): (t: Heap)
    requires HeapInv(h) && LegalRun(h, es)
    ensures HeapInv(t) && t.offset == h.offset
    decreases |es|
  {
    if es == [] then h else Final(Step(h, es[0]), es[1..])
  }

  ghost function AllFed(offset: nat, es: seq<Event>): set<nat> {
    if es == [] then {} else Fed(offset, es[0]) + AllFed(offset, es[1..])
  }

  lemma EmptyHeapInv(offset: nat)
    requires offset > 0 && offset % PAGE_SIZE == 0
    ensures HeapInv(EmptyHeap(offset)) && forall a :: !Managed(EmptyHeap(offset), a)
  {
    var h := EmptyHeap(offset);
    assert Inv(h.lists);
    assert forall x: nat :: !BuddySpec.Free(h.lists, x);
  }

  /** Page conservation: over any run the heap accounts for exactly the pages it started with and
      those fed in since. */
  lemma {:induction false} RunConservesPages(h: Heap, es: seq<Event>)
    requires HeapInv(h) && LegalRun(h, es)
    ensures forall a :: Managed(Final(h, es), a) <==> Managed(h, a) || a in AllFed(h.offset, es)
    decreases |es|
  {
    hide HeapInv, Managed;
    if es == [] {
    } else {
      StepInv(h, es[0]);
      RunConservesPages(Step(h, es[0]), es[1..]);
    }
  }

  /** Heap safety over runs: in every reachable state no byte has two uses (two live regions, or a
      live region and a slab header, free slot, free block or frame, never overlap); a live region
      holds the bytes asked for inside one page that is in use; and it will be freed along the path
      that produced it. */
  lemma RunSafety(offset: nat, es: seq<Event>, a: nat, e: Extent)
    requires offset > 0 && offset % PAGE_SIZE == 0
    requires HeapInv(EmptyHeap(offset)) && LegalRun(EmptyHeap(offset), es)
    requires a in Final(EmptyHeap(offset), es).live && Occupies(Final(EmptyHeap(offset), es), e)
    ensures var h := Final(EmptyHeap(offset), es);
            && Occupies(h, Region(a)) && (e != Region(a) ==> Apart(h, Region(a), e))
            && h.live[a] <= BlockSize(h.live[a]) == Length(h, Region(a))
            && (forall x: nat :: a <= x < a + BlockSize(h.live[a]) ==>
                  S.PageBase(x) == S.PageBase(a) && S.PageBase(x) !in h.frames && Used(offset, h.lists, S.PageBase(x)))
            && (h.live[a] <= LARGEST <==> exists i :: 0 <= i < 8 && S.Live(h.caches[i], a))
            && (h.live[a] <= LARGEST ==> S.Live(h.caches[ClassOf(h.live[a])], a))
  {
    var h := Final(EmptyHeap(offset), es);
    hide S.PageBase, S.Live, Used, Shape, Apart;
    RegionInPage(h, a);
    if e != Region(a) { ExtentsApart(h, Region(a), e); }
    forall x: nat | a <= x < a + BlockSize(h.live[a])
      ensures S.PageBase(x) == S.PageBase(a) && S.PageBase(x) !in h.frames && Used(offset, h.lists, S.PageBase(x))
    {
      RegionsOutsideFreeAndFrames(h, a, x);
    }
    if h.live[a] <= LARGEST { ClassIsTightest(h.live[a]); }
  }

  // ----- the live regions determine everything else

  lemma SlabPageIffObject(h: Heap, i: nat, page: nat)
    requires HeapInv(h) && i < 8
    ensures page in h.caches[i].slabs <==>
              exists a: nat :: a in h.live && h.live[a] <= LARGEST && ClassOf(h.live[a]) == i && S.PageBase(a) == page
  {
    hide S.CacheInv, S.PageBase, S.Live, Inv, Owners;
    S.HeldPagesAreUsed(h.caches[i], page);
    if a: nat :| S.Live(h.caches[i], a) && S.PageBase(a) == page {
      assert a in h.live;
    }
    if a: nat :| a in h.live && h.live[a] <= LARGEST && ClassOf(h.live[a]) == i && S.PageBase(a) == page {
      assert S.Live(h.caches[i], a);
    }
  }

  /** Two heaps over the same pages with the same live regions and frames hold the same slab pages
      and the same free blocks, whatever their histories. */
  lemma LiveRegionsDetermineHeap(h: Heap, g: Heap)
    requires HeapInv(h) && HeapInv(g) && h.offset == g.offset
    requires h.live == g.live && h.frames == g.frames
    requires forall a :: Managed(h, a) <==> Managed(g, a)
    ensures forall i :: 0 <= i < 8 ==> h.caches[i].slabs.Keys == g.caches[i].slabs.Keys
    ensures SameBlocks(h.lists, g.lists)
  {
    forall i | 0 <= i < 8 ensures h.caches[i].slabs.Keys == g.caches[i].slabs.Keys {
      forall page ensures page in h.caches[i].slabs <==> page in g.caches[i].slabs {
        SlabPageIffObject(h, i, page);
        SlabPageIffObject(g, i, page);
      }
    }
    forall a ensures FreePage(h.offset, h.lists, a) <==> FreePage(g.offset, g.lists, a) {
      FreeIffNotHeld(h, a);
      FreeIffNotHeld(g, a);
    }
    SameFreePages(h.offset, h.lists, g.lists);
    FreePagesDetermineBlocks(h.lists, g.lists);
  }

  lemma FreeIffNotHeld(h: Heap, a: nat)
    requires HeapInv(h)
    ensures FreePage(h.offset, h.lists, a) <==>
              Managed(h, a) && (forall i :: 0 <= i < 8 ==> a !in h.caches[i].slabs) && !Whole(h, a) && a !in h.frames
  {
    hide S.CacheInv, Placed, Inv;
  }

  lemma SameFreePages(offset: nat, L: FreeLists, R: FreeLists)
    requires offset % PAGE_SIZE == 0 && |L| == |R| == MAX_ORDER
    requires forall a :: FreePage(offset, L, a) <==> FreePage(offset, R, a)
    ensures FreePages(L) == FreePages(R)
  {
    hide BuddySpec.Free;
    forall p: nat | p < MAX_PAGES ensures BuddySpec.Free(L, p) <==> BuddySpec.Free(R, p) {
      PageAddress(offset, p);
      assert FreePage(offset, L, offset + p * PAGE_SIZE) <==> FreePage(offset, R, offset + p * PAGE_SIZE);
    }
  }

  /** A run that ends with the live regions and frames it began with, having fed nothing in,
      restores every free block and leaves every cache with the pages it held. */
  lemma RunRestoresBlocks(h: Heap, es: seq<Event>)
    requires HeapInv(h) && LegalRun(h, es) && AllFed(h.offset, es) == {}
    requires Final(h, es).live == h.live && Final(h, es).frames == h.frames
    ensures SameBlocks(Final(h, es).lists, h.lists)
    ensures forall i :: 0 <= i < 8 ==> Final(h, es).caches[i].slabs.Keys == h.caches[i].slabs.Keys
  {
    RunConservesPages(h, es);
    LiveRegionsDetermineHeap(Final(h, es), h);
  }

  /** Round trip: freeing what was just allocated restores every cache exactly, the live regions, and
      every free block, whatever it took to serve the request. */
  lemma AllocThenFree(h: Heap, size: nat)
    requires HeapInv(h) && Ready(h) && Alloc(h, size).0.Some?
    ensures var (r, t) := Alloc(h, size);
            && CanFree(t, r.value, size) && FreeReady(t, r.value, size)
            && var u := Dealloc(t, r.value, size);
            && u.caches == h.caches && u.live == h.live && u.frames == h.frames && u.offset == h.offset
            && SameBlocks(u.lists, h.lists)
  {
    hide HeapInv, Managed, S.Alloc, S.Dealloc, S.PageBase, S.CacheInv, Release, Take, SameBlocks;
    var (r, t) := Alloc(h, size);
    StepInv(h, Request(size, 1));
    var e := Free(r.value, size);
    assert Legal(t, e) by { AllocChangesOnly(h, size); }
    StepInv(t, e);
    var u := Dealloc(t, r.value, size);
    assert r.value !in h.live by { NewAddress(h, size); }
    AllocChangesOnly(h, size);
    DeallocChangesOnly(t, r.value, size);
    assert u.live == h.live;
    SameCaches(h, size);
    LiveRegionsDetermineHeap(u, h);
  }

  ghost function FreeAll(h: Heap, ptrs: seq<nat>): seq<Event>
    requires forall p :: p in ptrs ==> p in h.live
  {
    if ptrs == [] then [] else [Free(ptrs[0], h.live[ptrs[0]])] + FreeAll(h, ptrs[1..])
  }

  lemma {:induction false} FreeAllDrains(h: Heap, g: Heap, ptrs: seq<nat>)
    requires HeapInv(g) && NoDup(ptrs) && (forall p :: p in ptrs ==> p in h.live && p in g.live && g.live[p] == h.live[p])
    ensures LegalRun(g, FreeAll(h, ptrs)) && AllFed(g.offset, FreeAll(h, ptrs)) == {}
    ensures Final(g, FreeAll(h, ptrs)).live.Keys == g.live.Keys - Elements(ptrs)
    ensures Final(g, FreeAll(h, ptrs)).frames == g.frames
    decreases |ptrs|
  {
    hide HeapInv;
    if ptrs == [] {
    } else {
      var es := FreeAll(h, ptrs);
      var t := Step(g, es[0]);
      StepInv(g, es[0]);
      assert ptrs[0] !in ptrs[1..];
      assert t.live == g.live - {ptrs[0]} && t.frames == g.frames;
      FreeAllDrains(h, t, ptrs[1..]);
      assert es[1..] == FreeAll(h, ptrs[1..]);
      assert Elements(ptrs) == {ptrs[0]} + Elements(ptrs[1..]);
    }
  }

  /** The pages the heap accounts for, less the bare frames. */
  ghost function Reclaimable(h: Heap): set<nat>
    requires |h.lists| == MAX_ORDER && |h.caches| == 8
  {
    set p: nat | p < MAX_PAGES && Managed(h, h.offset + p * PAGE_SIZE) && h.offset + p * PAGE_SIZE !in h.frames
  }

  /** Freeing every live region, in any order, is legal, empties every cache, and leaves the frame
      allocator with exactly the maximal aligned runs of the pages the heap accounts for, less the
      bare frames. */
  lemma DrainRestoresFed(h: Heap, ptrs: seq<nat>)
    requires HeapInv(h) && NoDup(ptrs) && Elements(ptrs) == h.live.Keys
    ensures (forall p :: p in ptrs ==> p in h.live) && LegalRun(h, FreeAll(h, ptrs))
    ensures var t := Final(h, FreeAll(h, ptrs));
            && t.live == map[] && t.frames == h.frames && (forall i :: 0 <= i < 8 ==> t.caches[i].slabs == map[])
            && FreePages(t.lists) == Reclaimable(h)
            && forall o, p: nat :: 0 <= o < MAX_ORDER ==> (p in t.lists[o] <==> MaximalRun(Reclaimable(h), p, o))
  {
    hide Managed, BuddySpec.Free, MaximalRun, FreePage;
    assert forall p :: p in ptrs ==> p in Elements(ptrs);
    FreeAllDrains(h, h, ptrs);
    var t := Final(h, FreeAll(h, ptrs));
    assert t.live == map[];
    RunConservesPages(h, FreeAll(h, ptrs));
    forall i | 0 <= i < 8 ensures t.caches[i].slabs == map[] {
      forall page ensures page !in t.caches[i].slabs { SlabPageIffObject(t, i, page); }
    }
    forall p: nat | p < MAX_PAGES ensures BuddySpec.Free(t.lists, p) <==> p in Reclaimable(h) {
      NothingLive(t, p);
    }
    CanonicalForm(t.lists);
  }

  /** With nothing live and no slabs a page is free exactly when it is accounted for and no frame. */
  lemma NothingLive(t: Heap, p: nat)
    requires HeapInv(t) && t.live == map[] && (forall i :: 0 <= i < 8 ==> t.caches[i].slabs == map[]) && p < MAX_PAGES
    ensures var a := t.offset + p * PAGE_SIZE; BuddySpec.Free(t.lists, p) <==> Managed(t, a) && a !in t.frames
  {
    hide HeapInv, Managed, BuddySpec.Free;
    InvShape(t);
    PageAddress(t.offset, p);
    FreeIffNotHeld(t, t.offset + p * PAGE_SIZE);
  }

  // ----- when a request fails

  /** A request fails exactly when it is larger than a page, or no page is free and (for a slab
      size) its cache has no partial slab. */
  lemma RequestFailsExactly(h: Heap, size: nat)
    requires HeapInv(h) && Ready(h)
    ensures Alloc(h, size).0.None? <==>
              || size > PAGE_SIZE
              || (FreePages(h.lists) == {} && (size <= LARGEST ==> h.caches[ClassOf(size)].partial == []))
    ensures Alloc(h, size).0.None? ==> Alloc(h, size).1 == h
  {
    hide S.Alloc;
    assert Take(h.lists, 0).None? <==> FreePages(h.lists) == {} by { TakeOneFails(h.lists); }
    if size <= LARGEST {
      AllocSmall(h, size);
      var i := ClassOf(size);
      S.AllocCorrect(h.caches[i], None);
      assert h.caches[i := h.caches[i]] == h.caches;
    }
  }

  /** A frame request fails exactly when no page is free. On success the next single page of the frame
      allocator joins the frames, and live regions and caches stay as they are. */
  lemma FrameRequestExact(h: Heap)
    requires HeapInv(h)
    ensures var (r, t) := AllocFrame(h);
            && (r.None? <==> FreePages(h.lists) == {})
            && (r.None? ==> t == h)
            && (r.Some? ==> t.frames == h.frames + {r.value} && r.value !in h.frames)
            && (r.Some? ==> r.value >= h.offset && Take(h.lists, 0) == Some((PageNumber(h.offset, r.value), t.lists)))
            && t.live == h.live && t.caches == h.caches && t.offset == h.offset
  {
    hide Take, FreePages;
    TakeOneFails(h.lists);
    AllocFrameStep(h);
  }

  lemma TakeOneFails(L: FreeLists)
    requires Inv(L)
    ensures Take(L, 0).None? <==> FreePages(L) == {}
  {
    TakeComplete(L, 0);
    if x :| x in FreePages(L) {
      assert Aligned(x, 0) && Run(FreePages(L), x, 0) by {
        assert forall y: nat :: InBlock(y, x, 0) <==> y == x;
      }
    }
    if Take(L, 0).Some? {
      TakenRun(L, 0);
      var p := Take(L, 0).value.0;
      assert InBlock(p, p, 0);
    }
  }
}

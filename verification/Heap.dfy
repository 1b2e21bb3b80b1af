/** The global heap on values: eight slab caches and a whole-page path over one frame allocator. */
module Heap {
  import opened Bits
  import opened Blocks
  import opened Seqs
  import opened BuddySpec
  import opened PageProvider
  import S = Slab

  const CLASSES: seq<nat> := [16, 32, 64, 128, 256, 512, 1024, 2048]
  const LARGEST: nat := 2048

  /** `live` maps every address handed out by `alloc` to the size asked for; `frames` holds the
      addresses of the pages handed out as bare frames. */
  datatype Heap = Heap(offset: nat, lists: FreeLists, caches: seq<S.Cache>, live: map<nat, nat>, frames: set<nat>)

  /** Which cache serves a request. */
  function ClassOf(size: nat): (i: nat)
    requires size <= LARGEST
  {
    if size <= 16 then 0
    else if size <= 32 then 1
    else if size <= 64 then 2
    else if size <= 128 then 3
    else if size <= 256 then 4
    else if size <= 512 then 5
    else if size <= 1024 then 6
    else 7
  }

  /** The bytes set aside for a request. */
  function BlockSize(size: nat): nat
    requires size <= PAGE_SIZE
  {
    if size > LARGEST then PAGE_SIZE else CLASSES[ClassOf(size)]
  }

  /** The serving class is the smallest that holds the request. */
  lemma ClassIsTightest(size: nat)
    requires size <= LARGEST
    ensures ClassOf(size) < 8 && size <= CLASSES[ClassOf(size)]
    ensures forall j :: 0 <= j < 8 && size <= CLASSES[j] ==> ClassOf(size) <= j
  {}

  // ----- the invariant

  predicate HeapPage(offset: nat, a: nat) {
    offset <= a < offset + MAX_PAGES * PAGE_SIZE && a % PAGE_SIZE == 0
  }

  function PageNumber(offset: nat, a: nat): nat
    requires offset <= a
  {
    (a - offset) / PAGE_SIZE
  }

  /** Page `a` is one of the heap's pages, and free or in use. */
  ghost predicate FreePage(offset: nat, L: FreeLists, a: nat)
    requires |L| == MAX_ORDER
  {
    HeapPage(offset, a) && Free(L, PageNumber(offset, a))
  }

  ghost predicate Used(offset: nat, L: FreeLists, a: nat)
    requires |L| == MAX_ORDER
  {
    HeapPage(offset, a) && !FreePage(offset, L, a)
  }

  ghost predicate Shape(h: Heap) {
    && h.offset > 0 && h.offset % PAGE_SIZE == 0
    && |h.lists| == MAX_ORDER && Inv(h.lists)
    && |h.caches| == 8
    && forall i :: 0 <= i < 8 ==> h.caches[i].size == CLASSES[i] && S.CacheInv(h.caches[i])
  }

  predicate Whole(h: Heap, a: nat) {
    a in h.live && h.live[a] > LARGEST
  }

  /** Every page in use has one owner: a cache, a whole-page allocation, or a bare frame. */
  ghost predicate Owners(h: Heap)
    requires |h.lists| == MAX_ORDER && |h.caches| == 8
  {
    && (forall i, a :: 0 <= i < 8 && a in h.caches[i].slabs ==> Used(h.offset, h.lists, a) && !Whole(h, a) && a !in h.frames)
    && (forall i, j, a :: 0 <= i < j < 8 && a in h.caches[i].slabs ==> a !in h.caches[j].slabs)
    && (forall a :: Whole(h, a) ==> Used(h.offset, h.lists, a) && a !in h.frames)
    && (forall a :: a in h.frames ==> Used(h.offset, h.lists, a))
  }

  /** An address is live exactly in the place its size leads to. */
  ghost predicate Placed(h: Heap)
    requires |h.caches| == 8 && forall i :: 0 <= i < 8 ==> h.caches[i].size > 0
  {
    && (forall a :: a in h.live ==> h.live[a] <= PAGE_SIZE)
    && (forall a :: a in h.live && h.live[a] <= LARGEST ==> S.Live(h.caches[ClassOf(h.live[a])], a))
    && (forall i, a: nat :: 0 <= i < 8 && S.Live(h.caches[i], a) ==> a in h.live && h.live[a] <= LARGEST && ClassOf(h.live[a]) == i)
  }

  ghost predicate HeapInv(h: Heap) {
    Shape(h) && Owners(h) && Placed(h)
  }

  /** The pages the heap accounts for. */
  ghost predicate Managed(h: Heap, a: nat)
    requires |h.lists| == MAX_ORDER && |h.caches| == 8
  {
    || FreePage(h.offset, h.lists, a)
    || (exists i :: 0 <= i < 8 && a in h.caches[i].slabs)
    || Whole(h, a) || a in h.frames
  }

  function EmptyHeap(offset: nat): Heap {
    Heap(offset, seq(MAX_ORDER, _ => []), seq(8, i requires 0 <= i < 8 => S.Cache(CLASSES[i], [], map[])), map[], {})
  }

  // ----- operations

  predicate Ready(h: Heap) {
    && |h.lists| == MAX_ORDER && |h.caches| == 8
    && forall i :: 0 <= i < 8 ==> h.caches[i].size > 0 && forall p :: p in h.caches[i].partial ==> p in h.caches[i].slabs
  }

  function Alloc(h: Heap, size: nat): (r: (Option<nat>, Heap))
    requires Ready(h)
  {
    if size > LARGEST then
      if size <= PAGE_SIZE && Take(h.lists, 0).Some? then
        (Offer(h.lists, h.offset), h.(lists := Drawn(h.lists, true), live := h.live[Offer(h.lists, h.offset).value := size]))
      else
        (None, h)
    else
      var i := ClassOf(size);
      var r := S.Alloc(h.caches[i], Offer(h.lists, h.offset));
      (r.ptr, h.(lists := Drawn(h.lists, r.drew),
                 caches := h.caches[i := r.cache],
                 live := if r.ptr.Some? then h.live[r.ptr.value := size] else h.live))
  }

  /** What a caller owes: the address is live and the size is the one it was allocated with. */
  predicate CanFree(h: Heap, ptr: nat, size: nat) {
    && ptr in h.live && h.live[ptr] == size
  }

  predicate FreeReady(h: Heap, ptr: nat, size: nat) {
    && |h.lists| == MAX_ORDER && |h.caches| == 8 && ptr >= h.offset && S.PageBase(ptr) >= h.offset
    && (size <= LARGEST ==>
          var c := h.caches[ClassOf(size)];
          S.PageBase(ptr) in c.slabs && c.slabs[S.PageBase(ptr)].inUse > 0)
  }

  function Dealloc(h: Heap, ptr: nat, size: nat): Heap
    requires FreeReady(h, ptr, size)
  {
    if size > LARGEST then
      h.(lists := Returned(h.lists, Some(ptr), h.offset), live := h.live - {ptr})
    else
      var i := ClassOf(size);
      var r := S.Dealloc(h.caches[i], ptr);
      h.(lists := Returned(h.lists, r.released, h.offset), caches := h.caches[i := r.cache], live := h.live - {ptr})
  }

  function AllocFrame(h: Heap): (r: (Option<nat>, Heap))
    requires |h.lists| == MAX_ORDER
  {
    if Take(h.lists, 0).Some? then
      (Offer(h.lists, h.offset), h.(lists := Drawn(h.lists, true), frames := h.frames + {Offer(h.lists, h.offset).value}))
    else
      (None, h)
  }

  function AddFrame(h: Heap, a: nat): Heap
    requires |h.lists| == MAX_ORDER
  {
    if h.offset <= a < h.offset + MAX_PAGES * PAGE_SIZE then h.(lists := Release(h.lists, PageNumber(h.offset, a), 0)) else h
  }

  // ----- pages come and go

  /** Drawing a page: it was free, and every other page stays as it is. */
  lemma PageDrawn(offset: nat, L: FreeLists)
    requires offset % PAGE_SIZE == 0 && |L| == MAX_ORDER && Inv(L) && Take(L, 0).Some?
    ensures var a := Offer(L, offset).value;
            var R := Drawn(L, true);
            && Inv(R) && HeapPage(offset, a) && FreePage(offset, L, a)
            && (forall b {:trigger FreePage(offset, R, b)} :: FreePage(offset, R, b) <==> FreePage(offset, L, b) && b != a)
  {
    hide Inv, Free;
    var (p, R) := Take(L, 0).value;
    TakeCorrect(L, 0);
    var a := Offer(L, offset).value;
    PageAddress(offset, p);
    assert forall x: nat :: InBlock(x, p, 0) <==> x == p;
    forall b | HeapPage(offset, b) ensures PageNumber(offset, b) == p <==> b == a {
      SamePage(offset, a, b);
    }
  }

  lemma PageAddress(offset: nat, p: nat)
    requires offset % PAGE_SIZE == 0 && p < MAX_PAGES
    ensures HeapPage(offset, offset + p * PAGE_SIZE) && PageNumber(offset, offset + p * PAGE_SIZE) == p
  {}

  lemma SamePage(offset: nat, a: nat, b: nat)
    requires offset % PAGE_SIZE == 0 && HeapPage(offset, a) && HeapPage(offset, b)
    ensures PageNumber(offset, a) == PageNumber(offset, b) <==> a == b
    ensures PageNumber(offset, a) < MAX_PAGES
  {}

  /** Giving a page in use back frees that page and no other. */
  lemma PageReturned(offset: nat, L: FreeLists, a: nat)
    requires offset % PAGE_SIZE == 0 && |L| == MAX_ORDER && Inv(L) && Used(offset, L, a)
    ensures var R := Release(L, PageNumber(offset, a), 0);
            && Inv(R)
            && (forall b {:trigger FreePage(offset, R, b)} :: FreePage(offset, R, b) <==> FreePage(offset, L, b) || b == a)
  {
    hide Inv, Free;
    var p := PageNumber(offset, a);
    SamePage(offset, a, a);
    SinglePage(L, p);
    UnfreeIsVacant(L, p);
    ReleaseCorrect(L, p, 0);
    assert forall x: nat :: InBlock(x, p, 0) <==> x == p;
    forall b | HeapPage(offset, b) ensures PageNumber(offset, b) == p <==> b == a {
      SamePage(offset, a, b);
    }
  }

  lemma UnfreeIsVacant(L: FreeLists, p: nat)
    requires Inv(L) && Aligned(p, 0) && Unfree(L, p, 0)
    ensures Vacant(L, p, 0)
  {
    VacantIffUnfree(L, p, 0);
  }

  // ----- where regions lie

  /** A page base is the address itself for a page address, and never for a slot. */
  lemma ObjectPage(c: S.Cache, a: nat)
    requires S.CacheInv(c) && S.Live(c, a)
    ensures S.PageBase(a) in c.slabs && S.PageBase(a) + S.HEADER_SIZE <= a && a + c.size <= S.PageBase(a) + PAGE_SIZE
    ensures a % PAGE_SIZE != 0
  {
    hide S.PageBase, S.IsSlot, S.Capacity;
    assert S.SlabInv(S.PageBase(a), c.size, c.slabs[S.PageBase(a)]);
    S.SlotPage(S.PageBase(a), c.size, a);
    InsidePage(S.PageBase(a), a);
  }

  lemma InsidePage(page: nat, a: nat)
    requires page % PAGE_SIZE == 0 && page < a < page + PAGE_SIZE
    ensures a % PAGE_SIZE != 0
  {}

  lemma PageOfPage(a: nat)
    requires a % PAGE_SIZE == 0
    ensures S.PageBase(a) == a
  {
    S.PageBaseOf(a, a);
  }

  /** A live region lies inside one page, which is in use and held by its own path. */
  lemma RegionInPage(h: Heap, a: nat)
    requires HeapInv(h) && a in h.live
    ensures h.live[a] <= BlockSize(h.live[a])
    ensures S.PageBase(a) <= a && a + BlockSize(h.live[a]) <= S.PageBase(a) + PAGE_SIZE
    ensures Used(h.offset, h.lists, S.PageBase(a)) && S.PageBase(a) !in h.frames
    ensures h.live[a] > LARGEST ==> S.PageBase(a) == a
    ensures h.live[a] <= LARGEST ==> S.PageBase(a) in h.caches[ClassOf(h.live[a])].slabs && S.PageBase(a) + S.HEADER_SIZE <= a
  {
    hide S.CacheInv, S.PageBase, S.Live, Inv, FreePage;
    if h.live[a] > LARGEST {
      assert Whole(h, a);
      PageOfPage(a);
    } else {
      ClassIsTightest(h.live[a]);
      ObjectPage(h.caches[ClassOf(h.live[a])], a);
    }
  }

  /** Live regions never overlap. */
  lemma RegionsApart(h: Heap, a: nat, b: nat)
    requires HeapInv(h) && a in h.live && b in h.live && a != b
    ensures a + BlockSize(h.live[a]) <= b || b + BlockSize(h.live[b]) <= a
  {
    hide S.CacheInv, S.PageBase, S.Live, Inv, FreePage;
    RegionInPage(h, a);
    RegionInPage(h, b);
    if S.PageBase(a) != S.PageBase(b) {
      S.PagesApart(S.PageBase(a), S.PageBase(b));
    } else if h.live[a] <= LARGEST && h.live[b] <= LARGEST {
      assert ClassOf(h.live[a]) == ClassOf(h.live[b]);
      S.LiveApart(h.caches[ClassOf(h.live[a])], a, b);
    }
  }

  /** No byte of a live region lies in a bare frame or a free page. */
  lemma RegionsOutsideFreeAndFrames(h: Heap, a: nat, x: nat)
    requires HeapInv(h) && a in h.live && a <= x < a + BlockSize(h.live[a])
    ensures S.PageBase(x) == S.PageBase(a) && S.PageBase(x) !in h.frames
    ensures Used(h.offset, h.lists, S.PageBase(x))
  {
    hide S.PageBase, S.Live, S.CacheInv, Inv, FreePage;
    RegionInPage(h, a);
    S.PageBaseOf(S.PageBase(a), x);
  }

  // ----- every step keeps the invariant

  /** Every class has room for at least one object. */
  lemma ClassesFit(i: nat)
    requires i < 8
    ensures S.IsPow2(CLASSES[i]) && S.ObjectStart(CLASSES[i]) == (if i == 0 then 32 else CLASSES[i])
    ensures S.Capacity(CLASSES[i]) > 0
  {
    hide S.ObjectStart;
    ClassPower(i);
    S.ObjectStartOf(i + 4);
    assert CLASSES[i] <= 2048 && S.ObjectStart(CLASSES[i]) <= 2048;
    S.DivAtLeastOne(PAGE_SIZE - S.ObjectStart(CLASSES[i]), CLASSES[i]);
  }

  lemma ClassPower(i: nat)
    requires i < 8
    ensures CLASSES[i] == Pow2(i + 4)
  {
    assert Pow2(4) == 16 && Pow2(5) == 32 && Pow2(6) == 64 && Pow2(7) == 128;
    assert Pow2(8) == 256 && Pow2(9) == 512 && Pow2(10) == 1024 && Pow2(11) == 2048;
  }

  lemma InvShape(h: Heap)
    requires HeapInv(h)
    ensures Shape(h)
  {}

  lemma InvReady(h: Heap)
    requires HeapInv(h)
    ensures Ready(h)
  {}

  /** No cache, region or frame holds page `a`. */
  ghost predicate Unheld(h: Heap, a: nat)
    requires |h.caches| == 8
  {
    && (forall i :: 0 <= i < 8 ==> a !in h.caches[i].slabs)
    && (forall b :: b in h.live ==> S.PageBase(b) != a)
    && a !in h.frames
  }

  lemma FreePageUnheld(h: Heap, a: nat)
    requires HeapInv(h) && FreePage(h.offset, h.lists, a)
    ensures Unheld(h, a)
  {
    hide S.CacheInv, S.PageBase, S.Live, Inv, FreePage, Placed;
    assert !Used(h.offset, h.lists, a);
    forall b | b in h.live ensures S.PageBase(b) != a { RegionInPage(h, b); }
  }

  /** A whole-page request is served by a page that was free and that nobody held; every other page
      stays as it is. */
  lemma AllocLarge(h: Heap, size: nat)
    requires HeapInv(h) && Ready(h) && LARGEST < size <= PAGE_SIZE && Take(h.lists, 0).Some?
    ensures var (r, t) := Alloc(h, size);
            && HeapInv(t) && r.Some? && r.value !in h.live && (forall a :: Managed(t, a) <==> Managed(h, a))
            && FreePage(h.offset, h.lists, r.value) && Unheld(h, r.value)
            && (forall a: nat :: FreePage(t.offset, t.lists, a) <==> FreePage(h.offset, h.lists, a) && a != r.value)
  {
    hide S.CacheInv, S.PageBase, S.Live, Inv, Take, FreePage;
    PageDrawn(h.offset, h.lists);
    var a := Offer(h.lists, h.offset).value;
    FreePageUnheld(h, a);
    var (r, t) := Alloc(h, size);
    if a in h.live { PageOfPage(a); }
    assert forall b :: Used(h.offset, h.lists, b) ==> b != a && Used(t.offset, t.lists, b);
    assert Used(t.offset, t.lists, a);
    forall i, b | 0 <= i < 8 && b in h.caches[i].slabs ensures !Whole(t, b) {
      assert Used(h.offset, h.lists, b);
    }
    assert Owners(t);
    assert Placed(t);
    SameManaged(h, t, a);
  }

  /** Pages keep being accounted for when one page moves from free to held or back. */
  lemma SameManaged(h: Heap, t: Heap, a: nat)
    requires |h.lists| == |t.lists| == MAX_ORDER && |h.caches| == |t.caches| == 8 && h.offset == t.offset
    requires HeapPage(h.offset, a) && Managed(h, a) && Managed(t, a)
    requires forall b :: b != a ==> (FreePage(h.offset, h.lists, b) <==> FreePage(t.offset, t.lists, b))
    requires forall b :: b != a ==> (Whole(h, b) <==> Whole(t, b)) && (b in h.frames <==> b in t.frames)
    requires forall i, b :: 0 <= i < 8 && b != a ==> (b in h.caches[i].slabs <==> b in t.caches[i].slabs)
    ensures forall b :: Managed(t, b) <==> Managed(h, b)
  {
    hide FreePage;
    forall b ensures Managed(t, b) <==> Managed(h, b) {
      if b != a {
        assert (exists i :: 0 <= i < 8 && b in h.caches[i].slabs) <==> (exists i :: 0 <= i < 8 && b in t.caches[i].slabs);
      }
    }
  }

  lemma HeapPageBounds(offset: nat, a: nat)
    requires HeapPage(offset, a)
    ensures offset <= a && a % PAGE_SIZE == 0
  {}

  /** A bare frame, too, is a page that was free and that nobody held. */
  lemma AllocFrameStep(h: Heap)
    requires HeapInv(h)
    ensures var (r, t) := AllocFrame(h);
            && HeapInv(t) && (forall a :: Managed(t, a) <==> Managed(h, a))
            && (r.Some? ==> FreePage(h.offset, h.lists, r.value) && Unheld(h, r.value))
            && (forall a: nat :: FreePage(t.offset, t.lists, a) <==> FreePage(h.offset, h.lists, a) && !(r.Some? && a == r.value))
  {
    hide S.CacheInv, S.PageBase, S.Live, Inv, Take, FreePage;
    if Take(h.lists, 0).Some? {
      PageDrawn(h.offset, h.lists);
      var (r, t) := AllocFrame(h);
      FreePageUnheld(h, r.value);
      assert forall b :: Used(h.offset, h.lists, b) ==> b != r.value && Used(t.offset, t.lists, b);
      assert Used(t.offset, t.lists, r.value);
      forall i, b | 0 <= i < 8 && b in h.caches[i].slabs ensures b !in t.frames {
        assert Used(h.offset, h.lists, b);
      }
      assert forall b :: Whole(t, b) ==> Whole(h, b) && Used(h.offset, h.lists, b);
      assert Owners(t);
      assert Placed(t);
      SameManaged(h, t, r.value);
    }
  }

  lemma DeallocLarge(h: Heap, ptr: nat)
    requires HeapInv(h) && Whole(h, ptr)
    ensures FreeReady(h, ptr, h.live[ptr])
    ensures var t := Dealloc(h, ptr, h.live[ptr]); HeapInv(t) && (forall a :: Managed(t, a) <==> Managed(h, a))
  {
    hide S.CacheInv, S.PageBase, S.Live, Inv, Release, FreePage, HeapPage;
    RegionInPage(h, ptr);
    HeapPageBounds(h.offset, ptr);
    PageReturned(h.offset, h.lists, ptr);
    var t := Dealloc(h, ptr, h.live[ptr]);
    WholeGone(h, t, ptr);
    SameManaged(h, t, ptr);
  }

  /** Without the whole-page region at `ptr` everything else keeps its owner and place. */
  lemma WholeGone(h: Heap, t: Heap, ptr: nat)
    requires HeapInv(h) && Whole(h, ptr) && |t.lists| == MAX_ORDER && Inv(t.lists)
    requires t.offset == h.offset && t.caches == h.caches && t.frames == h.frames && t.live == h.live - {ptr}
    requires forall b :: FreePage(t.offset, t.lists, b) <==> FreePage(h.offset, h.lists, b) || b == ptr
    ensures HeapInv(t)
  {
    hide S.CacheInv, S.PageBase, S.Live, Inv, FreePage, HeapPage;
    WholeGonePlaced(h, t, ptr);
    forall b ensures Whole(t, b) <==> b != ptr && Whole(h, b) {}
    forall b | b != ptr && Used(h.offset, h.lists, b) ensures Used(t.offset, t.lists, b) {}
    forall i, b | 0 <= i < 8 && b in h.caches[i].slabs ensures Used(t.offset, t.lists, b) && !Whole(t, b) && b !in t.frames {
      assert !Whole(h, b) && Used(h.offset, h.lists, b);
    }
    forall b | Whole(t, b) ensures Used(t.offset, t.lists, b) && b !in t.frames {
      assert Whole(h, b) && Used(h.offset, h.lists, b);
    }
    forall b | b in t.frames ensures Used(t.offset, t.lists, b) {
      assert Used(h.offset, h.lists, b) && !Whole(h, b);
    }
    assert Owners(t);
  }

  lemma WholeGonePlaced(h: Heap, t: Heap, ptr: nat)
    requires HeapInv(h) && Whole(h, ptr) && t.caches == h.caches && t.live == h.live - {ptr}
    ensures Placed(t)
  {
    hide S.CacheInv, S.PageBase, S.Live, Inv, Owners, ClassOf;
    forall i, a: nat | 0 <= i < 8 && S.Live(h.caches[i], a) ensures a != ptr {
      assert h.live[a] <= LARGEST;
    }
  }

  // ----- one cache and the page lists change together

  /** The step from `h` to `t` replaces cache `i` by `c`; a page may move between the free pages
      and that cache, and nothing else changes hands. */
  ghost predicate CacheStep(h: Heap, t: Heap, i: nat, c: S.Cache)
    requires Shape(h)
  {
    && i < 8 && S.CacheInv(c) && c.size == CLASSES[i] && |t.lists| == MAX_ORDER && Inv(t.lists)
    && t.offset == h.offset && t.frames == h.frames && t.caches == h.caches[i := c]
    && (forall a :: Whole(t, a) <==> Whole(h, a))
    && (forall a :: FreePage(t.offset, t.lists, a) || a in c.slabs <==> FreePage(h.offset, h.lists, a) || a in h.caches[i].slabs)
    && (forall a :: a in c.slabs ==> !FreePage(t.offset, t.lists, a))
  }

  lemma CacheStepOwners(h: Heap, t: Heap, i: nat, c: S.Cache)
    requires HeapInv(h) && CacheStep(h, t, i, c)
    ensures Shape(t) && Owners(t) && forall a :: Managed(t, a) <==> Managed(h, a)
  {
    hide S.CacheInv, S.Live, Inv, Whole, Free, HeapPage, PageNumber;
    forall a | a in c.slabs ensures Used(t.offset, t.lists, a) && !Whole(t, a) && a !in t.frames {
      assert FreePage(h.offset, h.lists, a) || a in h.caches[i].slabs;
      assert a in h.caches[i].slabs ==> Used(h.offset, h.lists, a);
      assert HeapPage(t.offset, a);
    }
    forall j, a | 0 <= j < 8 && j != i && a in h.caches[j].slabs
      ensures Used(t.offset, t.lists, a) && a !in c.slabs
    {
      assert Used(h.offset, h.lists, a) && a !in h.caches[i].slabs;
    }
    assert forall a :: Whole(h, a) || a in h.frames ==> Used(h.offset, h.lists, a) && a !in h.caches[i].slabs;
    assert Owners(t);
    forall a ensures Managed(t, a) <==> Managed(h, a) {
      if Managed(h, a) && !FreePage(h.offset, h.lists, a) && !Whole(h, a) && a !in h.frames {
        var j :| 0 <= j < 8 && a in h.caches[j].slabs;
        assert j != i ==> a in t.caches[j].slabs;
        assert a in c.slabs ==> a in t.caches[i].slabs;
      }
      if Managed(t, a) && !FreePage(t.offset, t.lists, a) && !Whole(t, a) && a !in t.frames {
        var j :| 0 <= j < 8 && a in t.caches[j].slabs;
        assert j != i ==> a in h.caches[j].slabs;
      }
      assert a in c.slabs ==> a in t.caches[i].slabs;
    }
  }

  /** A slab request draws at most one page, into the serving cache; it fails exactly when that
      cache has no partial slab and no page is free. */
  lemma AllocSmall(h: Heap, size: nat)
    requires HeapInv(h) && Ready(h) && size <= LARGEST
    ensures var (r, t) := Alloc(h, size);
            && HeapInv(t) && (r.Some? ==> r.value !in h.live) && (forall a :: Managed(t, a) <==> Managed(h, a))
            && (r.None? <==> h.caches[ClassOf(size)].partial == [] && Take(h.lists, 0).None?)
  {
    hide S.CacheInv, S.PageBase, S.Live, S.Alloc, Inv, Take, FreePage, HeapPage;
    var i := ClassOf(size);
    var c := h.caches[i];
    var offer := Offer(h.lists, h.offset);
    ClassesFit(i);
    if offer.Some? { OfferIsUnused(h); }
    S.AllocCorrect(c, offer);
    var r := S.Alloc(c, offer);
    var (p, t) := Alloc(h, size);
    if r.ptr.None? {
      assert h.caches[i := r.cache] == h.caches;
      assert t == h;
    } else {
      NewObject(h, i, r.cache, r.ptr.value, offer);
      assert forall a :: a in c.slabs ==> Used(h.offset, h.lists, a);
      if r.drew {
        PageDrawn(h.offset, h.lists);
      }
      assert CacheStep(h, t, i, r.cache);
      CacheStepOwners(h, t, i, r.cache);
      PlaceObject(h, t, i, r.cache, r.ptr.value, size);
    }
  }

  lemma OfferIsUnused(h: Heap)
    requires HeapInv(h) && Take(h.lists, 0).Some?
    ensures var a := Offer(h.lists, h.offset).value;
            a % PAGE_SIZE == 0 && (forall i :: 0 <= i < 8 ==> a !in h.caches[i].slabs)
  {
    hide S.CacheInv, S.PageBase, S.Live, Inv, Take, FreePage;
    PageDrawn(h.offset, h.lists);
    assert !Used(h.offset, h.lists, Offer(h.lists, h.offset).value);
  }

  /** An object newly handed out by cache `i` was not live before, in any cache. */
  lemma NewObject(h: Heap, i: nat, c: S.Cache, ptr: nat, offer: Option<nat>)
    requires HeapInv(h) && i < 8 && S.CacheInv(c) && S.Live(c, ptr) && !S.Live(h.caches[i], ptr)
    requires S.PageBase(ptr) in h.caches[i].slabs || (offer == Some(S.PageBase(ptr)) && forall j :: 0 <= j < 8 ==> offer.value !in h.caches[j].slabs)
    ensures ptr !in h.live
  {
    hide S.CacheInv, S.PageBase, S.Live, Inv, FreePage;
    ObjectPage(c, ptr);
    if ptr in h.live {
      RegionInPage(h, ptr);
    }
  }

  lemma PlaceObject(h: Heap, t: Heap, i: nat, c: S.Cache, ptr: nat, size: nat)
    requires Shape(h) && Shape(t) && Placed(h) && i < 8 && size <= LARGEST && ClassOf(size) == i && ptr !in h.live
    requires t.caches == h.caches[i := c] && t.live == h.live[ptr := size] && c.size > 0
    requires forall a: nat :: S.Live(c, a) <==> S.Live(h.caches[i], a) || a == ptr
    ensures Placed(t)
  {
    hide S.CacheInv, S.Live, Inv;
  }

  lemma RemoveObject(h: Heap, t: Heap, i: nat, c: S.Cache, ptr: nat)
    requires Shape(h) && Shape(t) && Placed(h) && i < 8 && ptr in h.live && h.live[ptr] <= LARGEST && ClassOf(h.live[ptr]) == i
    requires t.caches == h.caches[i := c] && t.live == h.live - {ptr} && c.size > 0
    requires forall a: nat :: S.Live(c, a) <==> S.Live(h.caches[i], a) && a != ptr
    ensures Placed(t)
  {
    hide S.CacheInv, S.Live, Inv;
  }

  lemma DeallocSmall(h: Heap, ptr: nat)
    requires HeapInv(h) && ptr in h.live && h.live[ptr] <= LARGEST
    ensures FreeReady(h, ptr, h.live[ptr])
    ensures var t := Dealloc(h, ptr, h.live[ptr]); HeapInv(t) && (forall a :: Managed(t, a) <==> Managed(h, a))
  {
    hide S.CacheInv, S.PageBase, S.Live, S.Dealloc, Inv, Release, FreePage;
    var i := ClassOf(h.live[ptr]);
    var c := h.caches[i];
    RegionInPage(h, ptr);
    S.DeallocCorrect(c, ptr);
    var r := S.Dealloc(c, ptr);
    var t := Dealloc(h, ptr, h.live[ptr]);
    if r.released.Some? {
      PageReturned(h.offset, h.lists, S.PageBase(ptr));
    }
    assert forall a :: a in c.slabs ==> Used(h.offset, h.lists, a);
    assert CacheStep(h, t, i, r.cache);
    CacheStepOwners(h, t, i, r.cache);
    RemoveObject(h, t, i, r.cache, ptr);
  }

  // ----- what a step changes, and nothing else

  /** A request records exactly its address with the size asked for. A whole page is the next single
      page of the frame allocator and touches no cache; a smaller request is served by the cache of its
      size class and touches no other. */
  lemma AllocChangesOnly(h: Heap, size: nat)
    requires HeapInv(h) && Ready(h)
    ensures var (r, t) := Alloc(h, size);
            && t.offset == h.offset && t.frames == h.frames && |t.caches| == 8
            && t.live == (if r.Some? then h.live[r.value := size] else h.live)
            && (forall i :: 0 <= i < 8 && (size > LARGEST || i != ClassOf(size)) ==> t.caches[i] == h.caches[i])
            && (r.Some? && size > LARGEST ==> r.value >= h.offset && Take(h.lists, 0) == Some((PageNumber(h.offset, r.value), t.lists)))
            && (size <= LARGEST ==>
                  var served := S.Alloc(h.caches[ClassOf(size)], Offer(h.lists, h.offset));
                  r == served.ptr && t.caches[ClassOf(size)] == served.cache && t.lists == Drawn(h.lists, served.drew))
            && (r.Some? && size <= LARGEST ==>
                  forall a: nat :: S.Live(t.caches[ClassOf(size)], a) <==> S.Live(h.caches[ClassOf(size)], a) || a == r.value)
  {
    hide S.CacheInv, S.PageBase, S.Live, S.Alloc, Inv, Take, FreePage;
    if size <= LARGEST {
      var offer := Offer(h.lists, h.offset);
      if offer.Some? { OfferIsUnused(h); }
      S.AllocCorrect(h.caches[ClassOf(size)], offer);
    }
  }

  /** A free forgets exactly its address. A whole page goes back to the frame allocator and touches no
      cache; a smaller region goes back to the cache of its size class and touches no other. */
  lemma DeallocChangesOnly(h: Heap, ptr: nat, size: nat)
    requires HeapInv(h) && CanFree(h, ptr, size)
    ensures FreeReady(h, ptr, size)
    ensures var t := Dealloc(h, ptr, size);
            && t.offset == h.offset && t.frames == h.frames && |t.caches| == 8 && t.live == h.live - {ptr}
            && (forall i :: 0 <= i < 8 && (size > LARGEST || i != ClassOf(size)) ==> t.caches[i] == h.caches[i])
            && (size > LARGEST ==> t.lists == Release(h.lists, PageNumber(h.offset, ptr), 0))
            && (size <= LARGEST ==>
                  var given := S.Dealloc(h.caches[ClassOf(size)], ptr);
                  && t.caches[ClassOf(size)] == given.cache
                  && t.lists == if given.released.None? then h.lists else Release(h.lists, PageNumber(h.offset, S.PageBase(ptr)), 0))
            && (size <= LARGEST ==>
                  forall a: nat :: S.Live(t.caches[ClassOf(size)], a) <==> S.Live(h.caches[ClassOf(size)], a) && a != ptr)
  {
    hide S.CacheInv, S.PageBase, S.Live, S.Dealloc, Inv, Release, FreePage, Managed;
    if size > LARGEST {
      DeallocLarge(h, ptr);
    } else {
      DeallocSmall(h, ptr);
      S.DeallocCorrect(h.caches[ClassOf(size)], ptr);
    }
  }

  lemma NewAddress(h: Heap, size: nat)
    requires HeapInv(h) && Ready(h) && Alloc(h, size).0.Some?
    ensures Alloc(h, size).0.value !in h.live
  {
    if size <= LARGEST { AllocSmall(h, size); } else { AllocLarge(h, size); }
  }

  lemma SameCaches(h: Heap, size: nat)
    requires HeapInv(h) && Ready(h) && Alloc(h, size).0.Some?
    requires FreeReady(Alloc(h, size).1, Alloc(h, size).0.value, size)
    ensures Dealloc(Alloc(h, size).1, Alloc(h, size).0.value, size).caches == h.caches
  {
    hide S.Alloc, S.Dealloc, S.PageBase, S.CacheInv, Inv, Release, Take, FreePage, Owners, Placed;
    if size <= LARGEST {
      var offer := Offer(h.lists, h.offset);
      if offer.Some? { OfferIsUnused(h); }
      S.AllocThenDealloc(h.caches[ClassOf(size)], offer);
    }
  }

  lemma AddFrameStep(h: Heap, a: nat)
    requires HeapInv(h) && (HeapPage(h.offset, a) ==> !Managed(h, a)) && a % PAGE_SIZE == 0
    ensures var t := AddFrame(h, a);
            && HeapInv(t) && (forall b :: Managed(t, b) <==> Managed(h, b) || (b == a && HeapPage(h.offset, a)))
            && (HeapPage(h.offset, a) ==> t == h.(lists := Release(h.lists, PageNumber(h.offset, a), 0)))
            && (!HeapPage(h.offset, a) ==> t == h)
  {
    hide S.CacheInv, S.PageBase, S.Live, Inv, Release, FreePage;
    if HeapPage(h.offset, a) {
      PageReturned(h.offset, h.lists, a);
      var t := AddFrame(h, a);
      assert forall b :: Used(h.offset, h.lists, b) && b != a ==> Used(t.offset, t.lists, b);
      assert forall b :: Whole(t, b) <==> Whole(h, b);
      assert Owners(t);
      assert Placed(t);
    }
  }
}

/** What the heap's bytes are used for: regions handed out, slab headers, free slots, free blocks and
    bare frames. The allocators keep their records inside headers, free slots and free blocks. */
module HeapExtents {
  import opened Bits
  import opened Blocks
  import opened BuddySpec
  import opened Heap
  import S = Slab

  /** The two links a free block starts with. */
  const FREE_FRAME_SIZE: nat := 16

  datatype Extent =
    | Region(addr: nat)
    | Header(cache: nat, page: nat)
    | FreeSlot(cache: nat, page: nat, addr: nat)
    | FreeBlock(order: nat, first: nat)
    | Frame(page: nat)

  ghost predicate Occupies(h: Heap, e: Extent)
    requires |h.lists| == MAX_ORDER && |h.caches| == 8
  {
    match e
    case Region(a) => a in h.live && h.live[a] <= PAGE_SIZE
    case Header(i, page) => i < 8 && page in h.caches[i].slabs
    case FreeSlot(i, page, a) => i < 8 && page in h.caches[i].slabs && a in h.caches[i].slabs[page].free
    case FreeBlock(o, p) => o < MAX_ORDER && p in h.lists[o]
    case Frame(page) => page in h.frames
  }

  ghost function Start(h: Heap, e: Extent): nat {
    match e
    case Region(a) => a
    case Header(_, page) => page
    case FreeSlot(_, _, a) => a
    case FreeBlock(_, p) => h.offset + p * PAGE_SIZE
    case Frame(page) => page
  }

  ghost function Length(h: Heap, e: Extent): nat
    requires |h.lists| == MAX_ORDER && |h.caches| == 8 && Occupies(h, e)
  {
    match e
    case Region(a) => BlockSize(h.live[a])
    case Header(_, _) => S.HEADER_SIZE
    case FreeSlot(i, _, _) => CLASSES[i]
    case FreeBlock(o, _) => Pow2(o) * PAGE_SIZE
    case Frame(_) => PAGE_SIZE
  }

  ghost predicate Apart(h: Heap, d: Extent, e: Extent)
    requires |h.lists| == MAX_ORDER && |h.caches| == 8 && Occupies(h, d) && Occupies(h, e)
  {
    Start(h, d) + Length(h, d) <= Start(h, e) || Start(h, e) + Length(h, e) <= Start(h, d)
  }

  /** The records fit the extents they are kept in. */
  lemma RecordsFit(h: Heap, e: Extent)
    requires HeapInv(h) && Occupies(h, e)
    ensures e.FreeSlot? ==> S.FREE_OBJECT_SIZE <= Length(h, e)
    ensures e.FreeBlock? ==> FREE_FRAME_SIZE <= Length(h, e)
  {
    hide HeapInv, Pow2;
  }

  // ----- extents that lie in one page

  /** The page an extent other than a free block lies in. */
  ghost function HomePage(e: Extent): nat
    requires !e.FreeBlock?
  {
    match e
    case Region(a) => S.PageBase(a)
    case Header(_, page) => page
    case FreeSlot(_, page, _) => page
    case Frame(page) => page
  }

  /** Extents of slab pages. */
  ghost predicate InSlab(h: Heap, e: Extent)
    requires |h.lists| == MAX_ORDER && |h.caches| == 8 && Occupies(h, e)
  {
    e.Header? || e.FreeSlot? || (e.Region? && h.live[e.addr] <= LARGEST)
  }

  ghost function SlabClass(h: Heap, e: Extent): nat
    requires |h.lists| == MAX_ORDER && |h.caches| == 8 && Occupies(h, e) && InSlab(h, e)
  {
    if e.Region? then ClassOf(h.live[e.addr]) else e.cache
  }

  lemma SlotInPage(c: S.Cache, page: nat, a: nat)
    requires S.CacheInv(c) && page in c.slabs && a in c.slabs[page].free
    ensures S.IsSlot(page, c.size, a) && S.PageBase(a) == page && page % PAGE_SIZE == 0
    ensures page + S.HEADER_SIZE <= a && a + c.size <= page + PAGE_SIZE
  {
    hide S.IsSlot, S.PageBase;
    assert S.SlabInv(page, c.size, c.slabs[page]);
    S.SlotPage(page, c.size, a);
  }

  lemma FrameIsUsed(h: Heap, page: nat)
    requires HeapInv(h) && page in h.frames
    ensures Used(h.offset, h.lists, page)
  {
    hide Shape, Placed, Used;
  }

  lemma SlabIsUsed(h: Heap, i: nat, page: nat)
    requires HeapInv(h) && i < 8 && page in h.caches[i].slabs
    ensures Used(h.offset, h.lists, page) && !Whole(h, page) && page !in h.frames
  {
    hide Shape, Placed, Used;
  }

  /** Such an extent lies inside its page, and the page is in use. */
  lemma InsideHome(h: Heap, e: Extent)
    requires HeapInv(h) && Occupies(h, e) && !e.FreeBlock?
    ensures HomePage(e) <= Start(h, e) && Start(h, e) + Length(h, e) <= HomePage(e) + PAGE_SIZE
    ensures Used(h.offset, h.lists, HomePage(e))
    ensures InSlab(h, e) ==> SlabClass(h, e) < 8 && HomePage(e) in h.caches[SlabClass(h, e)].slabs
    ensures !InSlab(h, e) && e.Region? ==> Whole(h, HomePage(e)) && HomePage(e) == e.addr
  {
    hide HeapInv, Used, S.PageBase, S.CacheInv;
    InvShape(h);
    match e {
      case Region(a) => RegionInPage(h, a);
      case Header(i, page) => SlabIsUsed(h, i, page);
      case FreeSlot(i, page, a) =>
        SlabIsUsed(h, i, page);
        SlotInPage(h.caches[i], page, a);
      case Frame(page) => FrameIsUsed(h, page);
    }
  }

  /** A slab page belongs to one class. */
  lemma OneClass(h: Heap, i: nat, j: nat, page: nat)
    requires HeapInv(h) && i < 8 && j < 8 && page in h.caches[i].slabs && page in h.caches[j].slabs
    ensures i == j
  {
    hide Shape, Placed, Used;
  }

  /** Header, free slots and regions of one slab page. */
  lemma SlabPartsApart(h: Heap, d: Extent, e: Extent)
    requires HeapInv(h) && Occupies(h, d) && Occupies(h, e) && d != e && !e.Header?
    requires InSlab(h, d) && InSlab(h, e) && HomePage(d) == HomePage(e) && SlabClass(h, d) == SlabClass(h, e)
    ensures Apart(h, d, e)
  {
    hide HeapInv, S.PageBase, S.CacheInv, S.IsSlot, S.Live;
    InvShape(h);
    var c := h.caches[SlabClass(h, e)];
    SlabSlot(h, e);
    if !d.Header? {
      SlabSlot(h, d);
      S.SlotsOfPageApart(HomePage(e), c.size, d.addr, e.addr);
    }
  }

  /** A free slot or small region is a slot of its page, past the header, and no slot is both. */
  lemma SlabSlot(h: Heap, e: Extent)
    requires HeapInv(h) && Occupies(h, e) && InSlab(h, e) && !e.Header?
    ensures SlabClass(h, e) < 8
    ensures var c := h.caches[SlabClass(h, e)];
            && c.size == CLASSES[SlabClass(h, e)] == Length(h, e)
            && HomePage(e) in c.slabs && S.IsSlot(HomePage(e), c.size, e.addr)
            && HomePage(e) + S.HEADER_SIZE <= e.addr
            && (e.Region? <==> e.addr !in c.slabs[HomePage(e)].free)
  {
    hide Owners, S.PageBase, S.CacheInv, S.IsSlot;
    match e
    case Region(a) =>
      ClassIsTightest(h.live[a]);
      ObjectPage(h.caches[SlabClass(h, e)], a);
    case FreeSlot(i, page, a) =>
      SlotInPage(h.caches[i], page, a);
  }

  // ----- free blocks

  /** All pages of a listed block are free, so no page in use lies in it. */
  lemma BlockApart(h: Heap, o: nat, p: nat, page: nat)
    requires HeapInv(h) && o < MAX_ORDER && p in h.lists[o] && Used(h.offset, h.lists, page)
    ensures h.offset + p * PAGE_SIZE + Pow2(o) * PAGE_SIZE <= page || page + PAGE_SIZE <= h.offset + p * PAGE_SIZE
  {
    hide Owners, Placed, Pow2, S.CacheInv;
    var x := PageNumber(h.offset, page);
    assert page == h.offset + x * PAGE_SIZE;
    if InBlock(x, p, o) {
      InBlockIff(x, p, o);
    }
  }

  lemma BlocksApart(h: Heap, o: nat, p: nat, k: nat, q: nat)
    requires HeapInv(h) && o < MAX_ORDER && k < MAX_ORDER && p in h.lists[o] && q in h.lists[k] && (o, p) != (k, q)
    ensures p + Pow2(o) <= q || q + Pow2(k) <= p
  {
    hide Owners, Placed, S.CacheInv;
    ListedBlocksDisjoint(h.lists, o, p, k, q);
    var x := if p < q then q else p;
    assert x in BlockPages(p, o) ==> x !in BlockPages(q, k);
  }

  // ----- every byte has one use

  lemma PagePartsApart(h: Heap, d: Extent, e: Extent)
    requires HeapInv(h) && Occupies(h, d) && Occupies(h, e) && d != e && !d.FreeBlock? && !e.FreeBlock?
    ensures Apart(h, d, e)
  {
    hide HeapInv, Used, S.PageBase, S.CacheInv;
    InvShape(h);
    InsideHome(h, d);
    InsideHome(h, e);
    UsedIsAligned(h, HomePage(d));
    UsedIsAligned(h, HomePage(e));
    if HomePage(d) != HomePage(e) {
      S.PagesApart(HomePage(d), HomePage(e));
    } else {
      OneUse(h, d, e);
      if InSlab(h, d) {
        OneClass(h, SlabClass(h, d), SlabClass(h, e), HomePage(d));
        if e.Header? { SlabPartsApart(h, e, d); } else { SlabPartsApart(h, d, e); }
      }
    }
  }

  lemma UsedIsAligned(h: Heap, page: nat)
    requires HeapInv(h) && Used(h.offset, h.lists, page)
    ensures page % PAGE_SIZE == 0
  {
    hide Shape, Owners, Placed;
  }

  /** Different extents of one page are parts of one slab. */
  lemma OneUse(h: Heap, d: Extent, e: Extent)
    requires HeapInv(h) && Occupies(h, d) && Occupies(h, e) && d != e && !d.FreeBlock? && !e.FreeBlock?
    requires HomePage(d) == HomePage(e)
    ensures InSlab(h, d) && InSlab(h, e)
    ensures d.Header? ==> SlabClass(h, d) == SlabClass(h, e) && !e.Header?
  {
    hide Placed, Used, S.PageBase, S.CacheInv, Inv;
    InsideHome(h, d);
    InsideHome(h, e);
    if InSlab(h, d) && InSlab(h, e) {
      OneClass(h, SlabClass(h, d), SlabClass(h, e), HomePage(d));
    }
  }

  /** No byte has two uses: regions, headers, free slots, free blocks and frames are pairwise
      disjoint, so writing one of them never damages another or a record kept in it. */
  lemma ExtentsApart(h: Heap, d: Extent, e: Extent)
    requires HeapInv(h) && Occupies(h, d) && Occupies(h, e) && d != e
    ensures Apart(h, d, e)
  {
    hide HeapInv, Used, Pow2, S.PageBase, S.CacheInv;
    InvShape(h);
    if d.FreeBlock? && e.FreeBlock? {
      BlocksApart(h, d.order, d.first, e.order, e.first);
      Scale(d.first, Pow2(d.order), e.first);
      Scale(e.first, Pow2(e.order), d.first);
    } else if d.FreeBlock? {
      InsideHome(h, e);
      BlockApart(h, d.order, d.first, HomePage(e));
    } else if e.FreeBlock? {
      InsideHome(h, d);
      BlockApart(h, e.order, e.first, HomePage(d));
    } else {
      PagePartsApart(h, d, e);
    }
  }

  lemma Scale(p: nat, n: nat, q: nat)
    ensures p + n <= q ==> p * PAGE_SIZE + n * PAGE_SIZE <= q * PAGE_SIZE
  {}
}

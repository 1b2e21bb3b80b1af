/** The global allocator: eight slab caches over one lazily initialised frame allocator. */
module GlobalHeap {
  import opened Bits
  import opened Blocks
  import opened Seqs
  import opened BuddySpec
  import opened Bitmap
  import opened Buddy
  import opened SlabCache
  import H = Heap
  import R = HeapRuns
  import S = Slab

  /** No page the provider may hand out is a slab of cache `i`. */
  lemma OffersAreSeparate(h: H.Heap, i: nat, p: nat)
    requires H.HeapInv(h) && i < 8 && Free(h.lists, p)
    ensures h.offset + p * PAGE_SIZE !in h.caches[i].slabs
  {
    hide H.Placed, S.CacheInv;
    FreeIsManaged(h.lists, p);
    H.PageAddress(h.offset, p);
    var a := h.offset + p * PAGE_SIZE;
    assert !H.Used(h.offset, h.lists, a) by { assert H.FreePage(h.offset, h.lists, a); }
    assert forall b :: b in h.caches[i].slabs ==> H.Used(h.offset, h.lists, b);
  }

  /** Two caches hold different pages. */
  lemma CachesAreDisjoint(h: H.Heap, i: nat, j: nat)
    requires H.HeapInv(h) && i < 8 && j < 8 && i != j
    ensures h.caches[i].slabs.Keys !! h.caches[j].slabs.Keys
  {
    hide H.Placed, H.Used, S.CacheInv, Inv;
    var k, m := if i < j then i else j, if i < j then j else i;
    assert forall a :: a in h.caches[k].slabs ==> a !in h.caches[m].slabs;
  }

  /** The page of a live object is in use, so it may be given back. */
  lemma OwnObject(h: H.Heap, ptr: nat)
    requires H.HeapInv(h) && ptr in h.live && h.live[ptr] <= H.LARGEST
    ensures S.Live(h.caches[H.ClassOf(h.live[ptr])], ptr)
    ensures H.Used(h.offset, h.lists, S.PageBase(ptr))
  {
    hide S.CacheInv, S.PageBase, S.Live, Inv;
    H.RegionInPage(h, ptr);
  }

  lemma NotFree(h: H.Heap, a: nat)
    requires H.HeapInv(h) && (H.HeapPage(h.offset, a) ==> !H.Managed(h, a))
    ensures H.HeapPage(h.offset, a) ==> !Free(h.lists, H.PageNumber(h.offset, a))
  {
    hide S.CacheInv, Inv;
  }

  /** What the frame allocator asks of a page it gets back. */
  lemma WholePageGoes(h: H.Heap, ptr: nat)
    requires H.HeapInv(h) && H.Whole(h, ptr)
    ensures |h.lists| == MAX_ORDER && h.offset <= ptr < h.offset + MAX_PAGES * PAGE_SIZE && (ptr - h.offset) % PAGE_SIZE == 0
    ensures Aligned(H.PageNumber(h.offset, ptr), 0) && Unfree(h.lists, H.PageNumber(h.offset, ptr), 0)
  {
    hide H.HeapInv, S.PageBase, Free, Unfree;
    H.InvShape(h);
    H.RegionInPage(h, ptr);
    SinglePage(h.lists, H.PageNumber(h.offset, ptr));
  }

  class SlubAllocator {
    const mem: SlabMemory
    const caches: seq<SCache>
    /** Null until `InitHeap`. */
    var pages: BuddyAllocator?
    ghost var live: map<nat, nat>
    ghost var frames: set<nat>

    ghost predicate Wired()
      reads this
    {
      && |caches| == 8
      && (forall i, j :: 0 <= i < j < 8 ==> caches[i] != caches[j])
      && (forall i :: 0 <= i < 8 ==> caches[i].mem == mem && caches[i].size == H.CLASSES[i])
    }

    /** The heap value the whole structure stands for. */
    ghost function View(): H.Heap
      requires pages != null
      reads this, pages, caches
    {
      H.Heap(pages.offset, pages.lists, seq(|caches|, i requires 0 <= i < |caches| reads caches => caches[i].cache), live, frames)
    }

    ghost predicate Valid()
      reads this, caches, mem, pages
      reads if pages == null then {} else pages.Repr()
    {
      && Wired()
      && (forall i :: 0 <= i < 8 ==> caches[i].Valid())
      && (pages == null ==> live == map[] && frames == {} && forall i :: 0 <= i < 8 ==> caches[i].cache == S.Cache(H.CLASSES[i], [], map[]))
      && (pages != null ==> pages.Valid() && H.HeapInv(View()))
    }

    constructor ()
      ensures Valid() && pages == null && fresh(mem) && fresh(caches)
    {
      var m := new SlabMemory();
      var cs := MakeCaches(m);
      mem := m;
      caches := cs;
      pages := null;
      live, frames := map[], {};
    }

    /** One empty cache per size class. */
    static method MakeCaches(m: SlabMemory) returns (cs: seq<SCache>)
      ensures |cs| == 8 && fresh(cs) && (forall i, j :: 0 <= i < j < 8 ==> cs[i] != cs[j])
      ensures forall i :: 0 <= i < 8 ==> cs[i].mem == m && cs[i].Valid() && cs[i].cache == S.Cache(H.CLASSES[i], [], map[])
    {
      hide S.CacheInv, Represents;
      cs := [];
      for k := 0 to 8
        invariant |cs| == k && fresh(cs) && (forall i, j :: 0 <= i < j < k ==> cs[i] != cs[j])
        invariant forall i :: 0 <= i < k ==> cs[i].mem == m && cs[i].Valid() && cs[i].cache == S.Cache(H.CLASSES[i], [], map[])
      {
        var c := new SCache(H.CLASSES[k], m);
        cs := cs + [c];
      }
    }

    method InitHeap(offset: nat)
      requires Valid() && pages == null && offset > 0 && offset % PAGE_SIZE == 0
      modifies this
      ensures Valid() && pages != null && fresh(pages.Repr()) && View() == H.EmptyHeap(offset)
    {
      pages := new BuddyAllocator(offset);
      R.EmptyHeapInv(offset);
      assert View() == H.EmptyHeap(offset);
    }

    method Alloc(size: nat, align: nat) returns (r: Option<nat>)
      requires Valid()
      modifies this`live, caches, mem, if pages == null then {} else pages.Repr()
      ensures Valid() && pages == old(pages)
      ensures pages == null ==> r.None?
      ensures pages != null ==> H.Ready(old(View())) && (r, View()) == H.Alloc(old(View()), size)
    {
      hide H.HeapInv, S.CacheInv, Represents, Inv, LinksAgree, BitsAgree, Take, S.Alloc;
      if pages != null { H.InvReady(View()); }
      if size > H.LARGEST {
        if size <= PAGE_SIZE {
          if pages != null {
            r := AllocPage(size);
            return;
          }
        }
        return None;
      }
      if pages == null {
        return None;
      }
      r := AllocObject(size);
    }

    /** A request of more than half a page takes a whole one. */
    method AllocPage(size: nat) returns (r: Option<nat>)
      requires Valid() && pages != null && H.LARGEST < size <= PAGE_SIZE
      modifies this`live, pages.Repr()
      ensures Valid() && pages == old(pages)
      ensures H.Ready(old(View())) && (r, View()) == H.Alloc(old(View()), size)
    {
      hide H.HeapInv, S.CacheInv, Represents, Inv, LinksAgree, BitsAgree, Take;
      ghost var h := View();
      H.InvReady(h);
      if Take(pages.lists, 0).Some? { H.AllocLarge(h, size); }
      r := pages.Alloc(0);
      if r.Some? {
        live := live[r.value := size];
      }
      assert View().caches == h.caches;
    }

    /** A smaller request goes to the cache of its size class. */
    method AllocObject(size: nat) returns (r: Option<nat>)
      requires Valid() && pages != null && size <= H.LARGEST
      modifies this`live, caches, mem, pages.Repr()
      ensures Valid() && pages == old(pages)
      ensures H.Ready(old(View())) && (r, View()) == H.Alloc(old(View()), size)
    {
      hide H.HeapInv, S.CacheInv, Represents, SameOutside, Inv, LinksAgree, BitsAgree, Take, S.Alloc;
      var index := H.ClassOf(size);
      ghost var h := View();
      H.InvReady(h);
      H.AllocSmall(h, size);
      SeparateFrom(index);
      r := caches[index].Alloc(pages);
      if r.Some? {
        live := live[r.value := size];
      }
      ghost var t := H.Alloc(h, size).1;
      assert View().caches == t.caches;
      forall j | 0 <= j < 8 && j != index ensures caches[j].Valid() {
        CachesAreDisjoint(t, index, j);
        OtherCacheUndisturbed(caches[j].partial, old(mem.header), old(mem.nextFree), mem.header, mem.nextFree, caches[j].cache, caches[index].cache.slabs.Keys);
      }
    }

    method Dealloc(ptr: nat, size: nat)
      requires Valid() && (pages != null ==> H.CanFree(View(), ptr, size))
      modifies this`live, caches, mem, if pages == null then {} else pages.Repr()
      ensures Valid() && pages == old(pages)
      ensures pages != null ==> H.FreeReady(old(View()), ptr, size) && View() == H.Dealloc(old(View()), ptr, size)
    {
      hide H.HeapInv, S.CacheInv, Represents, Inv, LinksAgree, BitsAgree;
      if size > H.LARGEST {
        if pages != null {
          FreePage(ptr, size);
        }
        return;
      }
      if pages != null {
        FreeObject(ptr, size);
      }
    }

    method FreePage(ptr: nat, size: nat)
      requires Valid() && pages != null && H.CanFree(View(), ptr, size) && size > H.LARGEST
      modifies this`live, pages.Repr()
      ensures Valid() && pages == old(pages)
      ensures H.FreeReady(old(View()), ptr, size) && View() == H.Dealloc(old(View()), ptr, size)
    {
      hide H.HeapInv, S.CacheInv, S.PageBase, Represents, Inv, LinksAgree, BitsAgree, Free, Unfree, Aligned, Release, H.Managed;
      ghost var h := View();
      H.DeallocLarge(h, ptr);
      WholePageGoes(h, ptr);
      pages.Dealloc(ptr, 0);
      live := live - {ptr};
      assert View().caches == h.caches;
    }

    method FreeObject(ptr: nat, size: nat)
      requires Valid() && pages != null && H.CanFree(View(), ptr, size) && size <= H.LARGEST
      modifies this`live, caches, mem, pages.Repr()
      ensures Valid() && pages == old(pages)
      ensures H.FreeReady(old(View()), ptr, size) && View() == H.Dealloc(old(View()), ptr, size)
    {
      hide H.HeapInv, H.Managed, S.CacheInv, Represents, SameOutside, Inv, LinksAgree, BitsAgree, Free, S.PageBase, S.Live, S.Dealloc, Release;
      var index := H.ClassOf(size);
      ghost var h := View();
      H.DeallocSmall(h, ptr);
      OwnObject(h, ptr);
      caches[index].Dealloc(ptr, pages);
      live := live - {ptr};
      ghost var t := H.Dealloc(h, ptr, size);
      assert View().caches == t.caches;
      forall j | 0 <= j < 8 && j != index ensures caches[j].Valid() {
        CachesAreDisjoint(h, index, j);
        OtherCacheUndisturbed(caches[j].partial, old(mem.header), old(mem.nextFree), mem.header, mem.nextFree, caches[j].cache, old(caches[index].cache).slabs.Keys);
      }
    }

    /** Feed one frame in; a null frame allocator ignores it. */
    method AddFrame(start: nat)
      requires Valid() && start % PAGE_SIZE == 0
      requires pages != null && H.HeapPage(pages.offset, start) ==> !H.Managed(View(), start)
      modifies if pages == null then {} else pages.Repr()
      ensures Valid() && pages == old(pages)
      ensures pages != null ==> View() == H.AddFrame(old(View()), start)
    {
      hide H.HeapInv, S.CacheInv, Represents, Inv, LinksAgree, BitsAgree, Free;
      if pages != null {
        ghost var h := View();
        H.AddFrameStep(h, start);
        NotFree(h, start);
        pages.AddFrame(start);
        assert View().caches == h.caches;
      }
    }

    /** One frame, as a physical address. */
    method AllocateFrame() returns (r: Option<nat>)
      requires Valid()
      modifies this`frames, if pages == null then {} else pages.Repr()
      ensures Valid() && pages == old(pages)
      ensures pages == null ==> r.None?
      ensures pages != null ==>
                var (a, t) := H.AllocFrame(old(View()));
                View() == t && (r.None? <==> a.None?) && (r.Some? ==> r.value + pages.offset == a.value)
    {
      hide H.HeapInv, S.CacheInv, Represents, Inv, LinksAgree, BitsAgree, Take;
      if pages == null {
        return None;
      }
      ghost var h := View();
      H.AllocFrameStep(h);
      r := pages.AllocateFrame();
      if r.Some? {
        frames := frames + {r.value + pages.offset};
      }
      assert View().caches == h.caches;
    }

    lemma SeparateFrom(i: nat)
      requires Valid() && pages != null && i < 8
      ensures caches[i].Separated(pages)
    {
      hide H.HeapInv, S.CacheInv, Represents, Inv, LinksAgree, BitsAgree, Free;
      forall p | Free(pages.lists, p) ensures pages.Address(p) !in caches[i].cache.slabs {
        OffersAreSeparate(View(), i, p);
      }
    }
  }
}

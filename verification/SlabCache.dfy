/** The slab cache over memory: headers and free-object links written into the slab pages. */
module SlabCache {
  import opened Bits
  import opened Blocks
  import opened Seqs
  import opened Bitmap
  import opened BuddySpec
  import opened Buddy
  import opened PageProvider
  import S = Slab

  /** Metadata at the start of every slab page. */
  datatype SlabHeader = SlabHeader(nextSlab: Link, freelist: Link, inUse: nat)

  /** The records the caches keep inside pages: headers by page address, and the `next` word of
      free objects by object address. */
  class SlabMemory {
    var header: map<nat, SlabHeader>
    var nextFree: map<nat, Link>

    constructor ()
      ensures header == map[] && nextFree == map[]
    {
      header, nextFree := map[], map[];
    }
  }

  // ----- singly linked lists on values

  ghost predicate SlabChain(head: Link, H: map<nat, SlabHeader>, s: seq<nat>)
    decreases |s|
  {
    if s == [] then head == None
    else head == Some(s[0]) && s[0] in H && SlabChain(H[s[0]].nextSlab, H, s[1..])
  }

  ghost predicate ObjChain(head: Link, O: map<nat, Link>, s: seq<nat>)
    decreases |s|
  {
    if s == [] then head == None
    else head == Some(s[0]) && s[0] in O && ObjChain(O[s[0]], O, s[1..])
  }

  /** A chain depends only on the links of its own nodes. */
  lemma {:induction false} SlabChainFrame(head: Link, H: map<nat, SlabHeader>, H': map<nat, SlabHeader>, s: seq<nat>)
    requires SlabChain(head, H, s)
    requires forall p :: p in s && p in H ==> p in H' && H'[p].nextSlab == H[p].nextSlab
    ensures SlabChain(head, H', s)
    decreases |s|
  {
    if s == [] {
    } else {
      SlabChainFrame(H[s[0]].nextSlab, H, H', s[1..]);
    }
  }

  lemma {:induction false} ObjChainFrame(head: Link, O: map<nat, Link>, O': map<nat, Link>, s: seq<nat>)
    requires ObjChain(head, O, s)
    requires forall a :: a in s && a in O ==> a in O' && O'[a] == O[a]
    ensures ObjChain(head, O', s)
    decreases |s|
  {
    if s == [] {
    } else {
      ObjChainFrame(O[s[0]], O, O', s[1..]);
    }
  }

  // ----- memory against the cache value

  ghost predicate SlabStored(H: map<nat, SlabHeader>, O: map<nat, Link>, page: nat, s: S.Slab) {
    page in H && H[page].inUse == s.inUse && ObjChain(H[page].freelist, O, s.free)
  }

  ghost predicate Represents(head: Link, H: map<nat, SlabHeader>, O: map<nat, Link>, c: S.Cache) {
    && SlabChain(head, H, c.partial)
    && forall p :: p in c.slabs ==> SlabStored(H, O, p, c.slabs[p])
  }

  /** Only records inside `pages` differ. */
  ghost predicate SameOutside(H: map<nat, SlabHeader>, O: map<nat, Link>, H': map<nat, SlabHeader>, O': map<nat, Link>, pages: set<nat>) {
    && (forall p :: p !in pages ==> (p in H <==> p in H') && (p in H ==> H[p] == H'[p]))
    && (forall a :: S.PageBase(a) !in pages ==> (a in O <==> a in O') && (a in O ==> O[a] == O'[a]))
  }

  /** What one cache writes does not disturb another that holds other pages. */
  lemma OtherCacheUndisturbed(head: Link, H: map<nat, SlabHeader>, O: map<nat, Link>, H': map<nat, SlabHeader>, O': map<nat, Link>, c: S.Cache, pages: set<nat>)
    requires S.CacheInv(c) && Represents(head, H, O, c)
    requires SameOutside(H, O, H', O', pages) && pages !! c.slabs.Keys
    ensures Represents(head, H', O', c)
  {
    SlabChainFrame(head, H, H', c.partial);
    forall p | p in c.slabs ensures SlabStored(H', O', p, c.slabs[p]) {
      SlabUndisturbed(H, O, H', O', p, c.size, c.slabs[p], pages);
    }
  }

  lemma SlabUndisturbed(H: map<nat, SlabHeader>, O: map<nat, Link>, H': map<nat, SlabHeader>, O': map<nat, Link>, p: nat, size: nat, s: S.Slab, pages: set<nat>)
    requires size > 0 && S.SlabInv(p, size, s) && SlabStored(H, O, p, s)
    requires SameOutside(H, O, H', O', pages) && p !in pages
    ensures SlabStored(H', O', p, s)
  {
    forall a | a in s.free ensures S.PageBase(a) == p {
      S.SlotPage(p, size, a);
    }
    ObjChainFrame(H[p].freelist, O, O', s.free);
  }

  /** Storing one slab's header and links leaves the other slabs of the cache as they were. */
  lemma StoreSlab(H: map<nat, SlabHeader>, O: map<nat, Link>, H': map<nat, SlabHeader>, O': map<nat, Link>, c: S.Cache, page: nat, s: S.Slab)
    requires S.CacheInv(c) && (forall p :: p in c.slabs && p != page ==> SlabStored(H, O, p, c.slabs[p]))
    requires SameOutside(H, O, H', O', {page}) && SlabStored(H', O', page, s)
    ensures var slabs := c.slabs[page := s]; forall p :: p in slabs ==> SlabStored(H', O', p, slabs[p])
  {
    forall p | p in c.slabs && p != page ensures SlabStored(H', O', p, c.slabs[p]) {
      SlabUndisturbed(H, O, H', O', p, c.size, c.slabs[p], {page});
    }
  }

  /** Popping the head slab's free list, and the slab itself when that was its last free slot. */
  lemma PopRepresents(head: Link, H: map<nat, SlabHeader>, O: map<nat, Link>, c: S.Cache, offer: Option<nat>)
    requires S.CacheInv(c) && Represents(head, H, O, c) && c.partial != []
    ensures var page := c.partial[0];
            && head == Some(page) && page in H && page in c.slabs && c.slabs[page].free != []
            && H[page].freelist == Some(c.slabs[page].free[0]) && c.slabs[page].free[0] in O
            && var next := O[c.slabs[page].free[0]];
            && var h := H[page].(freelist := next, inUse := H[page].inUse + 1);
            && var r := S.Alloc(c, offer);
            && r.ptr == H[page].freelist && !r.drew && r.cache.slabs.Keys == c.slabs.Keys
            && (next.None? ==> Represents(H[page].nextSlab, H[page := h.(nextSlab := None)], O, r.cache))
            && (next.Some? ==> Represents(head, H[page := h], O, r.cache))
  {
    hide S.CacheInv, S.SlabInv;
    var page := c.partial[0];
    PartialHead(c);
    var s := c.slabs[page];
    assert SlabStored(H, O, page, s);
    var rest := S.Slab(s.free[1..], s.inUse + 1);
    var next := O[s.free[0]];
    assert ObjChain(next, O, s.free[1..]);
    assert next.None? <==> s.free[1..] == [];
    var h := H[page].(freelist := next, inUse := H[page].inUse + 1, nextSlab := if next.None? then None else H[page].nextSlab);
    var H' := H[page := h];
    StoreSlab(H, O, H', O, c, page, rest);
    if next.None? {
      SlabChainFrame(H[page].nextSlab, H, H', c.partial[1..]);
    } else {
      SlabChainFrame(head, H, H', c.partial);
    }
  }

  lemma PartialHead(c: S.Cache)
    requires S.CacheInv(c) && c.partial != []
    ensures c.size > 0 && (forall p :: p in c.partial ==> p in c.slabs)
    ensures c.partial[0] in c.slabs && c.slabs[c.partial[0]].free != [] && c.partial[0] !in c.partial[1..]
  {
    assert c.partial[0] in c.partial;
  }

  /** Writing the header of a new slab whose free slots are already linked. */
  lemma FreshRepresents(H: map<nat, SlabHeader>, O: map<nat, Link>, O': map<nat, Link>, c: S.Cache, page: nat, next: Link)
    requires S.CacheInv(c) && c.partial == [] && S.Capacity(c.size) > 0
    requires page % PAGE_SIZE == 0 && page !in c.slabs
    requires Represents(None, H, O, c)
    requires SameOutside(H, O, H, O', {page}) && ObjChain(next, O', S.SlotsFrom(page, c.size, 1))
    ensures var H' := H[page := SlabHeader(None, next, 1)];
            var r := S.Alloc(c, Some(page));
            && r.ptr == Some(S.SlotAt(page, c.size, 0)) && r.drew
            && S.CacheInv(r.cache) && r.cache.slabs.Keys == c.slabs.Keys + {page}
            && Represents(if next.Some? then Some(page) else None, H', O', r.cache)
  {
    hide S.SlabInv, S.SlotsFrom, S.PageBase;
    var H' := H[page := SlabHeader(None, next, 1)];
    var s := S.Slab(S.SlotsFrom(page, c.size, 1), 1);
    S.AllocFresh(c, page);
    StoreSlab(H, O, H', O', c, page, s);
    var r := S.Alloc(c, Some(page));
    assert r.cache.slabs == c.slabs[page := s];
    assert r.cache.partial == if next.None? then [] else [page];
    assert SlabChain(None, H', []);
  }

  /** Pushing a slot back onto its slab's free list. */
  lemma PushRepresents(head: Link, H: map<nat, SlabHeader>, O: map<nat, Link>, c: S.Cache, ptr: nat)
    requires S.CacheInv(c) && Represents(head, H, O, c) && S.Live(c, ptr)
    ensures var page := S.PageBase(ptr);
            && page in c.slabs && page in H && H[page].inUse == c.slabs[page].inUse > 0
            && (H[page].freelist.None? <==> c.slabs[page].free == [])
            && var h := H[page].(freelist := Some(ptr), inUse := H[page].inUse - 1);
            && var O' := O[ptr := H[page].freelist];
            && var r := S.Dealloc(c, ptr);
            && (h.inUse > 0 && H[page].freelist.None? ==> Represents(Some(page), H[page := h.(nextSlab := head)], O', r.cache))
            && (h.inUse > 0 && H[page].freelist.Some? ==> Represents(head, H[page := h], O', r.cache))
  {
    hide S.SlabInv, S.PageBase;
    var page := S.PageBase(ptr);
    var s := c.slabs[page];
    LiveInUse(c, ptr);
    assert SlabStored(H, O, page, s);
    var full := H[page].freelist.None?;
    assert full <==> s.free == [];
    var h := H[page].(freelist := Some(ptr), inUse := H[page].inUse - 1, nextSlab := if full then head else H[page].nextSlab);
    var H' := H[page := h];
    var O' := O[ptr := H[page].freelist];
    if s.inUse > 1 {
      ObjChainFrame(H[page].freelist, O, O', s.free);
      assert ([ptr] + s.free)[1..] == s.free;
      StoreSlab(H, O, H', O', c, page, S.Slab([ptr] + s.free, s.inUse - 1));
      SlabChainFrame(head, H, H', c.partial);
      assert ([page] + c.partial)[1..] == c.partial;
    }
  }

  lemma LiveInUse(c: S.Cache, ptr: nat)
    requires S.CacheInv(c) && S.Live(c, ptr)
    ensures c.slabs[S.PageBase(ptr)].inUse > 0 && ptr !in c.slabs[S.PageBase(ptr)].free
    ensures S.PageBase(ptr) in c.partial <==> c.slabs[S.PageBase(ptr)].free != []
  {
    assert S.SlabInv(S.PageBase(ptr), c.size, c.slabs[S.PageBase(ptr)]);
  }

  /** After the last object of a page comes back, the other slabs and the partial chain still stand. */
  lemma EmptySlab(head: Link, H: map<nat, SlabHeader>, O: map<nat, Link>, c: S.Cache, ptr: nat, h: SlabHeader, next: Link)
    requires S.CacheInv(c) && Represents(head, H, O, c) && S.PageBase(ptr) in H
    requires h.nextSlab == H[S.PageBase(ptr)].nextSlab
    ensures var page := S.PageBase(ptr);
            && SlabChain(head, H[page := h], c.partial)
            && forall p :: p in c.slabs && p != page ==> SlabStored(H[page := h], O[ptr := next], p, c.slabs[p])
  {
    hide S.SlabInv, S.PageBase;
    var page := S.PageBase(ptr);
    SlabChainFrame(head, H, H[page := h], c.partial);
    forall p | p in c.slabs && p != page ensures SlabStored(H[page := h], O[ptr := next], p, c.slabs[p]) {
      SlabUndisturbed(H, O, H[page := h], O[ptr := next], p, c.size, c.slabs[p], {page});
    }
  }

  /** Bypassing node `k` of a chain removes it. */
  lemma {:induction false} SpliceChain(head: Link, H: map<nat, SlabHeader>, s: seq<nat>, k: nat)
    requires SlabChain(head, H, s) && NoDup(s) && 0 < k < |s|
    ensures s[k - 1] in H && s[k] in H
    ensures SlabChain(head, H[s[k - 1] := H[s[k - 1]].(nextSlab := H[s[k]].nextSlab)], s[..k] + s[k + 1..])
    decreases k
  {
    ChainNodes(head, H, s, k - 1);
    ChainNodes(head, H, s, k);
    var H' := H[s[k - 1] := H[s[k - 1]].(nextSlab := H[s[k]].nextSlab)];
    var t := s[..k] + s[k + 1..];
    if k == 1 {
      assert s[1..][1..] == s[2..] && t[1..] == s[2..];
      SlabChainFrame(H[s[1]].nextSlab, H, H', s[2..]);
    } else {
      SpliceChain(H[s[0]].nextSlab, H, s[1..], k - 1);
      assert t[1..] == s[1..][..k - 1] + s[1..][k..];
    }
  }

  /** Following the chain to node `k`. */
  lemma {:induction false} ChainNodes(head: Link, H: map<nat, SlabHeader>, s: seq<nat>, k: nat)
    requires SlabChain(head, H, s) && k < |s|
    ensures s[k] in H && SlabChain(H[s[k]].nextSlab, H, s[k + 1..])
    decreases k
  {
    if k == 0 {
    } else {
      ChainNodes(H[s[0]].nextSlab, H, s[1..], k - 1);
      assert s[1..][k..] == s[k + 1..];
    }
  }

  lemma EmptyPartial(head: Link, H: map<nat, SlabHeader>, O: map<nat, Link>, c: S.Cache)
    requires Represents(head, H, O, c)
    ensures head.None? <==> c.partial == []
  {}

  lemma SameOutsideRefl(H: map<nat, SlabHeader>, O: map<nat, Link>, pages: set<nat>)
    ensures SameOutside(H, O, H, O, pages)
  {}

  lemma SameOutsideGrow(H: map<nat, SlabHeader>, O: map<nat, Link>, O': map<nat, Link>, page: nat, h: SlabHeader, pages: set<nat>)
    requires SameOutside(H, O, H, O', {page}) && page in pages
    ensures SameOutside(H, O, H[page := h], O', pages)
  {}

  /** Linking slot `i` in front of the slots after it. */
  lemma LinkSlot(page: nat, size: nat, i: nat, next: Link, H: map<nat, SlabHeader>, O: map<nat, Link>, O': map<nat, Link>)
    requires size > 0 && i < S.Capacity(size) && page % PAGE_SIZE == 0
    requires ObjChain(next, O', S.SlotsFrom(page, size, i + 1))
    requires SameOutside(H, O, H, O', {page})
    ensures var ptr := S.SlotAt(page, size, i);
            && ObjChain(Some(ptr), O'[ptr := next], S.SlotsFrom(page, size, i))
            && SameOutside(H, O, H, O'[ptr := next], {page})
  {
    hide S.PageBase, S.ObjectStart, S.Capacity, S.SlotAt;
    var ptr := S.SlotAt(page, size, i);
    var rest := S.SlotsFrom(page, size, i + 1);
    assert ptr !in rest by {
      forall j | 0 <= j < |rest| ensures rest[j] != ptr { S.SlotsApart(page, size, i, i + 1 + j); }
    }
    ObjChainFrame(next, O', O'[ptr := next], rest);
    assert S.SlotsFrom(page, size, i) == [ptr] + rest;
    assert S.IsSlot(page, size, ptr);
    S.SlotPage(page, size, ptr);
  }

  lemma SizePositive(c: S.Cache)
    requires S.CacheInv(c)
    ensures c.size > 0
  {}

  /** Writes to one slab, its free list and the partial chain stay within the cache's pages. */
  lemma WritesStayInside(H: map<nat, SlabHeader>, O: map<nat, Link>, H': map<nat, SlabHeader>, ptr: nat, next: Link, h: SlabHeader, s: seq<nat>, pages: set<nat>)
    requires S.PageBase(ptr) in pages && S.PageBase(ptr) in H && (forall p :: p in s ==> p in pages)
    requires OnlyNextChanged(H[S.PageBase(ptr) := h], H', s)
    ensures SameOutside(H, O, H', O[ptr := next], pages)
  {
    hide S.PageBase;
  }

  class SCache {
    const size: nat
    const mem: SlabMemory
    var partial: Link
    ghost var cache: S.Cache

    ghost predicate Valid()
      reads this, mem
    {
      && cache.size == size && S.CacheInv(cache)
      && Represents(partial, mem.header, mem.nextFree, cache)
    }

    constructor (size: nat, mem: SlabMemory)
      requires size >= S.FREE_OBJECT_SIZE
      ensures Valid() && this.size == size && this.mem == mem
      ensures cache == S.Cache(size, [], map[])
    {
      this.size, this.mem := size, mem;
      partial := None;
      cache := S.Cache(size, [], map[]);
    }

    /** No page the provider may hand out is one of this cache's slabs. */
    ghost predicate Separated(provider: BuddyAllocator)
      requires |provider.lists| == MAX_ORDER
      reads this, provider
    {
      forall p :: Free(provider.lists, p) ==> provider.Address(p) !in cache.slabs
    }

    method Alloc(provider: BuddyAllocator) returns (r: Option<nat>)
      requires Valid() && provider.Valid() && Separated(provider)
      modifies this`partial, this`cache, mem
      modifies provider`lists, provider.freeLists, provider.bitmap, provider.next, provider.prev
      ensures Valid() && provider.Valid()
      ensures var spec := S.Alloc(old(cache), Offer(old(provider.lists), provider.offset));
              r == spec.ptr && cache == spec.cache && provider.lists == Drawn(old(provider.lists), spec.drew)
      ensures SameOutside(old(mem.header), old(mem.nextFree), mem.header, mem.nextFree, cache.slabs.Keys)
    {
      hide S.CacheInv, Represents, SameOutside, Inv, LinksAgree, BitsAgree, S.ObjectStart, Take, Free;
      EmptyPartial(partial, mem.header, mem.nextFree, cache);
      SizePositive(cache);
      PartialNoDup(cache);
      if partial.Some? {
        var obj := TakeFromPartial(Offer(provider.lists, provider.offset));
        return Some(obj);
      }
      var page := provider.Alloc(0);
      SameOutsideRefl(mem.header, mem.nextFree, cache.slabs.Keys);
      if page.None? {
        return None;
      }
      FreshOffer(old(provider.lists), provider.offset);
      if S.ObjectStart(size) >= PAGE_SIZE {
        return None;
      }
      var capacity := (PAGE_SIZE - S.ObjectStart(size)) / size;
      if capacity == 0 {
        return None;
      }
      var obj := InitSlab(page.value, capacity);
      return Some(obj);
    }

    /** Pop the first free object of the first partial slab. */
    method TakeFromPartial(ghost offer: Option<nat>) returns (obj: nat)
      requires Valid() && partial.Some? && cache.size > 0 && (forall p :: p in cache.partial ==> p in cache.slabs)
      modifies this`partial, this`cache, mem`header
      ensures Valid()
      ensures var spec := S.Alloc(old(cache), offer);
              spec.ptr == Some(obj) && cache == spec.cache && !spec.drew
      ensures SameOutside(old(mem.header), mem.nextFree, mem.header, mem.nextFree, cache.slabs.Keys)
    {
      hide S.CacheInv, Represents, SameOutside;
      EmptyPartial(partial, mem.header, mem.nextFree, cache);
      PopRepresents(partial, mem.header, mem.nextFree, cache, offer);
      S.AllocPartial(cache, offer);
      var slab := partial.value;
      var h := mem.header[slab];
      if h.freelist.None? {
        // a slab without free objects is never on the partial list
        assert false;
      }
      obj := h.freelist.value;
      h := h.(freelist := mem.nextFree[obj], inUse := h.inUse + 1);
      if h.freelist.None? {
        partial := h.nextSlab;
        h := h.(nextSlab := None);
      }
      mem.header := mem.header[slab := h];
      SameOutsideRefl(old(mem.header), mem.nextFree, {slab});
      SameOutsideGrow(old(mem.header), mem.nextFree, mem.nextFree, slab, h, cache.slabs.Keys);
      cache := S.Alloc(cache, offer).cache;
    }

    /** Lay out a new page as a slab and hand out its first object. */
    method InitSlab(page: nat, capacity: nat) returns (obj: nat)
      requires Valid() && partial.None? && cache.size > 0 && (forall p :: p in cache.partial ==> p in cache.slabs)
      requires capacity == S.Capacity(size) >= 1 && page % PAGE_SIZE == 0 && page !in cache.slabs
      modifies this`partial, this`cache, mem
      ensures Valid()
      ensures var spec := S.Alloc(old(cache), Some(page));
              old(cache).partial == [] && spec.ptr == Some(obj) && cache == spec.cache && spec.drew
      ensures SameOutside(old(mem.header), old(mem.nextFree), mem.header, mem.nextFree, cache.slabs.Keys)
    {
      hide S.CacheInv, Represents, SameOutside, S.Capacity;
      EmptyPartial(partial, mem.header, mem.nextFree, cache);
      obj := BuildFreeList(page, capacity);
      var freelist := mem.nextFree[obj];
      FreshRepresents(mem.header, old(mem.nextFree), mem.nextFree, cache, page, freelist);
      var header := SlabHeader(None, freelist, 1);
      if header.freelist.Some? {
        header := header.(nextSlab := partial);
        partial := Some(page);
      }
      mem.header := mem.header[page := header];
      SameOutsideGrow(old(mem.header), old(mem.nextFree), mem.nextFree, page, header, S.Alloc(cache, Some(page)).cache.slabs.Keys);
      cache := S.Alloc(cache, Some(page)).cache;
    }

    /** Link all slots of a new slab in address order; the head is slot 0. */
    method BuildFreeList(page: nat, capacity: nat) returns (head: nat)
      requires size > 0 && capacity == S.Capacity(size) >= 1 && page % PAGE_SIZE == 0
      modifies mem`nextFree
      ensures head == S.SlotAt(page, size, 0) && head in mem.nextFree
      ensures ObjChain(mem.nextFree[head], mem.nextFree, S.SlotsFrom(page, size, 1))
      ensures SameOutside(mem.header, old(mem.nextFree), mem.header, mem.nextFree, {page})
    {
      hide SameOutside;
      var next: Link := None;
      var i := capacity;
      SameOutsideRefl(mem.header, mem.nextFree, {page});
      while i > 0
        invariant 0 <= i <= capacity
        invariant ObjChain(next, mem.nextFree, S.SlotsFrom(page, size, i))
        invariant SameOutside(mem.header, old(mem.nextFree), mem.header, mem.nextFree, {page})
      {
        i := i - 1;
        var ptr := page + S.ObjectStart(size) + i * size;
        LinkSlot(page, size, i, next, mem.header, old(mem.nextFree), mem.nextFree);
        mem.nextFree := mem.nextFree[ptr := next];
        next := Some(ptr);
      }
      head := next.value;
      assert S.SlotsFrom(page, size, 0)[1..] == S.SlotsFrom(page, size, 1);
    }

    /** The page belongs to the provider's range and is not on its free lists. */
    ghost predicate OwnPage(provider: BuddyAllocator, page: nat)
      requires |provider.lists| == MAX_ORDER
      reads provider
    {
      provider.InRange(page) && (page - provider.offset) % PAGE_SIZE == 0 && !Free(provider.lists, provider.PageOf(page))
    }

    method Dealloc(ptr: nat, provider: BuddyAllocator)
      requires Valid() && provider.Valid() && S.Live(cache, ptr)
      requires OwnPage(provider, S.PageBase(ptr))
      modifies this`partial, this`cache, mem
      modifies provider`lists, provider.freeLists, provider.bitmap, provider.next, provider.prev
      ensures Valid() && provider.Valid()
      ensures old(cache).slabs[S.PageBase(ptr)].inUse > 0
      ensures var spec := S.Dealloc(old(cache), ptr);
              && cache == spec.cache
              && (spec.released.Some? ==> spec.released.value >= provider.offset)
              && provider.lists == Returned(old(provider.lists), spec.released, provider.offset)
      ensures SameOutside(old(mem.header), old(mem.nextFree), mem.header, mem.nextFree, old(cache).slabs.Keys)
    {
      hide S.CacheInv, S.PageBase, Represents, SameOutside, OnlyNextChanged, Inv, LinksAgree, BitsAgree, SlabChain, SlabStored, Free, Release, Unfree, Aligned;
      var page := S.PageBase(ptr);
      PartialNoDup(cache);
      PushRepresents(partial, mem.header, mem.nextFree, cache, ptr);
      S.DeallocCorrect(cache, ptr);
      var h := mem.header[page];
      var oldHead := h.freelist;
      h := h.(freelist := Some(ptr), inUse := h.inUse - 1);
      if h.inUse == 0 {
        EmptySlab(partial, mem.header, mem.nextFree, cache, ptr, h, oldHead);
        mem.nextFree := mem.nextFree[ptr := oldHead];
        mem.header := mem.header[page := h];
        RemoveSlabFromPartial(page);
        RemovedRepresents(partial, old(mem.header)[page := h], mem.header, mem.nextFree, cache, ptr);
        WritesStayInside(old(mem.header), old(mem.nextFree), mem.header, ptr, oldHead, h, cache.partial, cache.slabs.Keys);
        cache := S.Dealloc(cache, ptr).cache;
        SinglePage(provider.lists, provider.PageOf(page));
        provider.Dealloc(page, 0);
      } else {
        mem.nextFree := mem.nextFree[ptr := oldHead];
        if oldHead.None? {
          h := h.(nextSlab := partial);
          partial := Some(page);
        }
        mem.header := mem.header[page := h];
        NoNextChanged(mem.header, cache.partial);
        WritesStayInside(old(mem.header), old(mem.nextFree), mem.header, ptr, oldHead, h, cache.partial, cache.slabs.Keys);
        cache := S.Dealloc(cache, ptr).cache;
      }
    }

    method RemoveSlabFromPartial(slab: nat)
      requires SlabChain(partial, mem.header, cache.partial) && NoDup(cache.partial)
      modifies this`partial, mem`header
      ensures SlabChain(partial, mem.header, Without(cache.partial, slab))
      ensures OnlyNextChanged(old(mem.header), mem.header, cache.partial)
    {
      ghost var s := cache.partial;
      // `prev` owns the link under the cursor: the cache itself when null, else that header
      var prev: Link := None;
      var node := partial;
      ghost var k := 0;
      while node.Some?
        invariant 0 <= k <= |s| && SlabChain(node, mem.header, s[k..]) && slab !in s[..k]
        invariant prev == if k == 0 then None else Some(s[k - 1])
        invariant k == 0 ==> node == partial
        invariant mem.header == old(mem.header) && SlabChain(partial, mem.header, s)
        decreases |s| - k
      {
        ChainNodes(partial, mem.header, s, k);
        if node.value == slab {
          WithoutAt(s, k);
          var next := mem.header[node.value].nextSlab;
          if prev.None? {
            partial := next;
            assert Without(s, slab) == s[1..];
          } else {
            SpliceChain(partial, mem.header, s, k);
            mem.header := mem.header[prev.value := mem.header[prev.value].(nextSlab := next)];
          }
          return;
        }
        prev := node;
        node := mem.header[node.value].nextSlab;
        k := k + 1;
      }
      WithoutMembers(s, slab);
      assert s[..k] == s;
    }
  }

  /** Only the next-slab words of the pages in `s` may differ. */
  ghost predicate OnlyNextChanged(H: map<nat, SlabHeader>, H': map<nat, SlabHeader>, s: seq<nat>) {
    H'.Keys == H.Keys && forall p :: p in H ==> H'[p] == H[p] || (p in s && H'[p] == H[p].(nextSlab := H'[p].nextSlab))
  }

  lemma NoNextChanged(H: map<nat, SlabHeader>, s: seq<nat>)
    ensures OnlyNextChanged(H, H, s)
  {}

  lemma PartialNoDup(c: S.Cache)
    requires S.CacheInv(c)
    ensures NoDup(c.partial) && forall p :: p in c.partial ==> p in c.slabs
  {}

  /** With the emptied slab off the partial list, memory represents the cache without it. */
  lemma RemovedRepresents(head: Link, H: map<nat, SlabHeader>, H': map<nat, SlabHeader>, O: map<nat, Link>, c: S.Cache, ptr: nat)
    requires S.PageBase(ptr) in c.slabs && c.slabs[S.PageBase(ptr)].inUse == 1
    requires SlabChain(head, H', Without(c.partial, S.PageBase(ptr)))
    requires forall p :: p in c.slabs && p != S.PageBase(ptr) ==> SlabStored(H, O, p, c.slabs[p])
    requires OnlyNextChanged(H, H', c.partial)
    ensures Represents(head, H', O, S.Dealloc(c, ptr).cache)
  {
    hide S.PageBase;
  }
}

/** A slab cache on values. Every page the cache holds is a slab: a header followed by equal slots,
    each of them free (on the slab's free list) or live (handed out). */
module Slab {
  import opened Bits
  import opened Blocks
  import opened Seqs

  /** Three words: next slab, free list, objects in use. */
  const HEADER_SIZE: nat := 24
  /** The one word a free slot holds. */
  const FREE_OBJECT_SIZE: nat := 8

  // ----- layout of a slab page

  predicate IsPow2(n: nat) {
    n == 1 || (n > 0 && n % 2 == 0 && IsPow2(n / 2))
  }

  function Log2(n: nat): (k: nat)
    requires IsPow2(n)
    ensures Pow2(k) == n
  {
    if n == 1 then 0 else 1 + Log2(n / 2)
  }

  /** Slots start past the header, aligned to the object size or else to 8 bytes. */
  function ObjectStart(size: nat): (r: nat)
    ensures HEADER_SIZE <= r
  {
    if IsPow2(size) then
      AlignDownIsRounding(HEADER_SIZE + size - 1, Log2(size));
      AlignDown(HEADER_SIZE + size - 1, Log2(size))
    else
      AlignDownIsRounding(HEADER_SIZE + 7, 3);
      assert Pow2(3) == 8;
      AlignDown(HEADER_SIZE + 7, 3)
  }

  lemma {:induction false} Log2OfPow2(k: nat)
    ensures IsPow2(Pow2(k)) && Log2(Pow2(k)) == k
  {
    hide IsPow2, Log2;
    if k > 0 {
      Log2OfPow2(k - 1);
      Log2Double(Pow2(k - 1));
    } else {
      Log2One();
    }
  }

  lemma Log2One()
    ensures IsPow2(1) && Log2(1) == 0
  {}

  lemma Log2Double(n: nat)
    requires IsPow2(n)
    ensures IsPow2(2 * n) && Log2(2 * n) == 1 + Log2(n)
  {
    assert (2 * n) / 2 == n && (2 * n) % 2 == 0 && 2 * n != 1;
  }

  /** A 24-byte header takes one object's room from 32 bytes on, and two of 16 bytes. */
  lemma ObjectStartOf(k: nat)
    requires k >= 4
    ensures IsPow2(Pow2(k)) && ObjectStart(Pow2(k)) == if k == 4 then 32 else Pow2(k)
  {
    hide AlignDown, IsPow2, Log2;
    Log2OfPow2(k);
    FirstMultiples(k);
    assert Pow2(4) == 16 && Pow2(5) == 32;
    if k > 4 { Pow2Monotone(5, k); }
    InBlockIff(HEADER_SIZE + Pow2(k) - 1, if k == 4 then 32 else Pow2(k), k);
  }

  lemma FirstMultiples(k: nat)
    ensures Aligned(Pow2(k), k) && Aligned(2 * Pow2(k), k)
  {
    AlignDownIsRounding(0, k);
    UpperAligned(0, k);
    UpperAligned(Pow2(k), k);
  }

  /** How many slots fit; none if the first would already leave the page. */
  function Capacity(size: nat): (n: nat)
    requires size > 0
  {
    if ObjectStart(size) >= PAGE_SIZE then 0 else (PAGE_SIZE - ObjectStart(size)) / size
  }

  lemma DivTimes(x: nat, m: nat)
    requires m > 0
    ensures x / m * m <= x
  {
    assert x == m * (x / m) + x % m;
  }

  lemma DivAtLeastOne(x: nat, m: nat)
    requires 0 < m <= x
    ensures x / m >= 1
  {
    assert x == m * (x / m) + x % m;
  }

  function SlotAt(page: nat, size: nat, i: nat): nat {
    page + ObjectStart(size) + i * size
  }

  ghost predicate IsSlot(page: nat, size: nat, a: nat)
    requires size > 0
  {
    exists i: nat :: i < Capacity(size) && a == SlotAt(page, size, i)
  }

  /** The slots from index `i` on, in address order. */
  function SlotsFrom(page: nat, size: nat, i: nat): (s: seq<nat>)
    requires size > 0 && i <= Capacity(size)
    ensures |s| == Capacity(size) - i
    ensures forall j :: 0 <= j < |s| ==> s[j] == SlotAt(page, size, i + j)
    decreases Capacity(size) - i
  {
    if i == Capacity(size) then [] else [SlotAt(page, size, i)] + SlotsFrom(page, size, i + 1)
  }

  /** The page an address lies in: the address with its low 12 bits cleared. */
  function PageBase(ptr: nat): nat {
    AlignDown(ptr, 12)
  }

  lemma PageBaseIsRounding(ptr: nat)
    ensures PageBase(ptr) == ptr - ptr % PAGE_SIZE
  {
    AlignDownIsRounding(ptr, 12);
    assert Pow2(12) == PAGE_SIZE;
    DivUnique(ptr, PAGE_SIZE, Shr(ptr, 12), ptr - AlignDown(ptr, 12));
  }

  /** It is what masking with `!(PAGE_SIZE - 1)` leaves of a 64-bit address. */
  lemma PageBaseIsMask(ptr: nat)
    requires ptr < WORD
    ensures And(ptr, WORD - PAGE_SIZE) == PageBase(ptr)
  {
    hide And, AlignDown;
    WordIsPow2();
    assert Pow2(12) == PAGE_SIZE;
    MaskClearsLowBits(ptr, 12, 64);
  }

  /** Every address inside an aligned page has that page as its base. */
  lemma PageBaseOf(page: nat, ptr: nat)
    requires page % PAGE_SIZE == 0 && page <= ptr < page + PAGE_SIZE
    ensures PageBase(ptr) == page
  {
    hide PageBase;
    PageBaseIsRounding(ptr);
    DivUnique(ptr, PAGE_SIZE, page / PAGE_SIZE, ptr - page);
  }

  lemma MulMonotone(i: nat, j: nat, m: nat)
    requires i <= j
    ensures i * m <= j * m
  {}

  lemma MulSucc(i: nat, m: nat)
    ensures (i + 1) * m == i * m + m
  {}

  /** Slots lie inside their page, past the header, and do not overlap. */
  lemma SlotBounds(page: nat, size: nat, i: nat)
    requires size > 0 && i < Capacity(size)
    ensures page + HEADER_SIZE <= SlotAt(page, size, i)
    ensures SlotAt(page, size, i) + size <= page + PAGE_SIZE
  {
    hide ObjectStart;
    MulMonotone(i + 1, Capacity(size), size);
    MulSucc(i, size);
    DivTimes(PAGE_SIZE - ObjectStart(size), size);
  }

  lemma SlotsApart(page: nat, size: nat, i: nat, j: nat)
    requires size > 0 && i < j
    ensures SlotAt(page, size, i) + size <= SlotAt(page, size, j)
  {
    hide ObjectStart;
    MulMonotone(i + 1, j, size);
    MulSucc(i, size);
  }

  lemma SlotPage(page: nat, size: nat, a: nat)
    requires size > 0 && page % PAGE_SIZE == 0 && IsSlot(page, size, a)
    ensures PageBase(a) == page
    ensures page + HEADER_SIZE <= a && a + size <= page + PAGE_SIZE
  {
    hide PageBase, ObjectStart, Capacity, SlotAt;
    var i: nat :| i < Capacity(size) && a == SlotAt(page, size, i);
    SlotBounds(page, size, i);
    PageBaseOf(page, a);
  }

  lemma AllSlots(page: nat, size: nat)
    requires size > 0
    ensures NoDup(SlotsFrom(page, size, 0))
    ensures forall a: nat :: a in SlotsFrom(page, size, 0) <==> IsSlot(page, size, a)
  {
    var s := SlotsFrom(page, size, 0);
    forall i, j | 0 <= i < j < |s| ensures s[i] != s[j] {
      SlotsApart(page, size, i, j);
    }
    forall a: nat ensures a in s <==> IsSlot(page, size, a) {
      if IsSlot(page, size, a) {
        var i: nat :| i < Capacity(size) && a == SlotAt(page, size, i);
        assert s[i] == a;
      }
    }
  }

  // ----- state

  datatype Slab = Slab(free: seq<nat>, inUse: nat)

  /** `partial` lists the slabs that have free slots; `slabs` holds every page of the cache. */
  datatype Cache = Cache(size: nat, partial: seq<nat>, slabs: map<nat, Slab>)

  ghost predicate SlabInv(page: nat, size: nat, s: Slab)
    requires size > 0
  {
    && page % PAGE_SIZE == 0
    && NoDup(s.free) && (forall a :: a in s.free ==> IsSlot(page, size, a))
    && 1 <= s.inUse && s.inUse + |s.free| == Capacity(size)
  }

  ghost predicate CacheInv(c: Cache) {
    && c.size >= FREE_OBJECT_SIZE
    && NoDup(c.partial)
    && (forall p :: p in c.partial <==> p in c.slabs && c.slabs[p].free != [])
    && (forall p :: p in c.slabs ==> SlabInv(p, c.size, c.slabs[p]))
  }

  /** `a` is an object handed out and not yet given back. */
  ghost predicate Live(c: Cache, a: nat)
    requires c.size > 0
  {
    && PageBase(a) in c.slabs
    && IsSlot(PageBase(a), c.size, a) && a !in c.slabs[PageBase(a)].free
  }

  // ----- operations

  datatype Allocation = Allocation(ptr: Option<nat>, cache: Cache, drew: bool)

  /** Serve from the first partial slab, or else from the page the provider offers; `drew` tells
      whether that page was drawn. */
  function Alloc(c: Cache, offer: Option<nat>): Allocation
    requires c.size > 0 && forall p :: p in c.partial ==> p in c.slabs
    decreases |c.partial|
  {
    if c.partial != [] then
      var page := c.partial[0];
      var slab := c.slabs[page];
      if slab.free != [] then
        var rest := slab.free[1..];
        Allocation(Some(slab.free[0]),
                   c.(partial := if rest == [] then c.partial[1..] else c.partial,
                      slabs := c.slabs[page := Slab(rest, slab.inUse + 1)]),
                   false)
      else
        Alloc(c.(partial := c.partial[1..]), offer)
    else if offer.None? then
      Allocation(None, c, false)
    else if Capacity(c.size) == 0 then
      Allocation(None, c, true)
    else
      var page := offer.value;
      var rest := SlotsFrom(page, c.size, 1);
      Allocation(Some(SlotAt(page, c.size, 0)),
                 c.(partial := if rest == [] then c.partial else [page] + c.partial,
                    slabs := c.slabs[page := Slab(rest, 1)]),
                 true)
  }

  /** Put the slot back; `released` is the page given back to the provider, if the slab is now empty. */
  datatype Deallocation = Deallocation(cache: Cache, released: Option<nat>)

  function Dealloc(c: Cache, ptr: nat): Deallocation
    requires PageBase(ptr) in c.slabs && c.slabs[PageBase(ptr)].inUse > 0
  {
    var page := PageBase(ptr);
    var slab := c.slabs[page];
    if slab.inUse == 1 then
      Deallocation(c.(partial := Without(c.partial, page), slabs := c.slabs - {page}), Some(page))
    else
      Deallocation(c.(partial := if slab.free == [] then [page] + c.partial else c.partial,
                      slabs := c.slabs[page := Slab([ptr] + slab.free, slab.inUse - 1)]),
                   None)
  }

  // ----- what a slab's counters mean

  ghost function LiveSlots(page: nat, c: Cache): set<nat>
    requires c.size > 0 && page in c.slabs
  {
    Elements(SlotsFrom(page, c.size, 0)) - Elements(c.slabs[page].free)
  }

  /** Free and live slots partition the slab, and `inUse` counts the live ones. */
  lemma InUseCountsLive(c: Cache, page: nat)
    requires CacheInv(c) && page in c.slabs
    ensures forall a: nat :: a in LiveSlots(page, c) <==> Live(c, a) && PageBase(a) == page
    ensures |LiveSlots(page, c)| == c.slabs[page].inUse
  {
    var all := SlotsFrom(page, c.size, 0);
    var free := c.slabs[page].free;
    AllSlots(page, c.size);
    NoDupSize(all);
    NoDupSize(free);
    assert SlabInv(page, c.size, c.slabs[page]);
    assert Elements(free) <= Elements(all);
    assert |Elements(all) - Elements(free)| == |Elements(all)| - |Elements(free)|;
    forall a: nat | IsSlot(page, c.size, a) ensures PageBase(a) == page {
      SlotPage(page, c.size, a);
    }
  }

  /** The partial list holds exactly the slabs that are neither empty nor full. */
  lemma PartialIsExact(c: Cache, page: nat)
    requires CacheInv(c)
    ensures page in c.partial <==> page in c.slabs && 0 < c.slabs[page].inUse < Capacity(c.size)
  {
    if page in c.slabs { assert SlabInv(page, c.size, c.slabs[page]); }
  }

  /** The cache holds exactly the pages with a live object. */
  lemma HeldPagesAreUsed(c: Cache, page: nat)
    requires CacheInv(c)
    ensures page in c.slabs <==> exists a: nat :: Live(c, a) && PageBase(a) == page
  {
    if page in c.slabs {
      InUseCountsLive(c, page);
      assert SlabInv(page, c.size, c.slabs[page]);
      var a :| a in LiveSlots(page, c);
    }
  }

  /** Live objects of one cache never overlap, stay inside one page, and never touch a header. */
  lemma LiveApart(c: Cache, a: nat, b: nat)
    requires CacheInv(c) && Live(c, a) && Live(c, b) && a != b
    ensures a + c.size <= b || b + c.size <= a
    ensures PageBase(a) + HEADER_SIZE <= a && a + c.size <= PageBase(a) + PAGE_SIZE
  {
    hide PageBase, ObjectStart, Capacity, SlotAt;
    assert SlabInv(PageBase(a), c.size, c.slabs[PageBase(a)]);
    assert SlabInv(PageBase(b), c.size, c.slabs[PageBase(b)]);
    SlotPage(PageBase(a), c.size, a);
    SlotPage(PageBase(b), c.size, b);
    if PageBase(a) == PageBase(b) {
      SlotsOfPageApart(PageBase(a), c.size, a, b);
    } else {
      PagesApart(PageBase(a), PageBase(b));
    }
  }

  lemma SlotsOfPageApart(page: nat, size: nat, a: nat, b: nat)
    requires size > 0 && IsSlot(page, size, a) && IsSlot(page, size, b) && a != b
    ensures a + size <= b || b + size <= a
  {
    hide ObjectStart, Capacity, SlotAt;
    var i: nat :| i < Capacity(size) && a == SlotAt(page, size, i);
    var j: nat :| j < Capacity(size) && b == SlotAt(page, size, j);
    if i < j {
      SlotsApart(page, size, i, j);
    } else if j < i {
      SlotsApart(page, size, j, i);
    }
  }

  lemma PagesApart(p: nat, q: nat)
    requires p % PAGE_SIZE == 0 && q % PAGE_SIZE == 0 && p != q
    ensures p + PAGE_SIZE <= q || q + PAGE_SIZE <= p
  {}

  // ----- what the operations keep

  /** An allocation from a fresh page offer keeps the invariant and makes exactly one new object
      live; it fails exactly when nothing is partial and no page is offered or no object fits one. */
  lemma AllocCorrect(c: Cache, offer: Option<nat>)
    requires CacheInv(c)
    requires offer.Some? ==> offer.value % PAGE_SIZE == 0 && offer.value !in c.slabs
    ensures var r := Alloc(c, offer);
            && CacheInv(r.cache) && r.cache.size == c.size
            && (r.ptr.None? <==> c.partial == [] && (offer.None? || Capacity(c.size) == 0))
            && (r.drew <==> c.partial == [] && offer.Some?)
            && r.cache.slabs.Keys == c.slabs.Keys + (if r.drew && r.ptr.Some? then {offer.value} else {})
            && (r.ptr.None? ==> r.cache == c)
            && (r.ptr.Some? ==> !Live(c, r.ptr.value) && PageBase(r.ptr.value) in r.cache.slabs)
            && (r.ptr.Some? ==> forall a: nat :: Live(r.cache, a) <==> Live(c, a) || a == r.ptr.value)
  {
    if c.partial != [] {
      AllocPartial(c, offer);
    } else if offer.Some? && Capacity(c.size) > 0 {
      AllocFresh(c, offer.value);
    }
  }

  /** Popping the free list makes its head the one newly live slot. */
  lemma PopSlot(page: nat, size: nat, s: Slab)
    requires size > 0 && SlabInv(page, size, s) && s.free != []
    ensures SlabInv(page, size, Slab(s.free[1..], s.inUse + 1))
    ensures IsSlot(page, size, s.free[0]) && PageBase(s.free[0]) == page
    ensures forall a :: a in s.free[1..] <==> a in s.free && a != s.free[0]
  {
    hide PageBase, ObjectStart, Capacity, SlotAt;
    assert s.free[0] in s.free;
    SlotPage(page, size, s.free[0]);
  }

  /** Replacing one slab and its place in the partial list. */
  lemma ReplaceSlab(c: Cache, page: nat, s: Slab, partial: seq<nat>)
    requires CacheInv(c) && SlabInv(page, c.size, s)
    requires NoDup(partial) && forall p :: p in partial <==> if p == page then s.free != [] else p in c.partial
    ensures CacheInv(c.(partial := partial, slabs := c.slabs[page := s]))
  {
    hide SlabInv, NoDup, Capacity;
  }

  lemma AllocPartial(c: Cache, offer: Option<nat>)
    requires CacheInv(c) && c.partial != []
    ensures var r := Alloc(c, offer);
            && CacheInv(r.cache) && r.cache.size == c.size && r.ptr.Some? && !r.drew
            && r.cache.slabs.Keys == c.slabs.Keys
            && !Live(c, r.ptr.value) && PageBase(r.ptr.value) in r.cache.slabs
            && (forall a: nat :: Live(r.cache, a) <==> Live(c, a) || a == r.ptr.value)
  {
    hide PageBase, Capacity, SlabInv, IsSlot, NoDup;
    var page := c.partial[0];
    assert page in c.partial;
    PopSlot(page, c.size, c.slabs[page]);
    var free := c.slabs[page].free;
    assert free[0] in free;
    PopPartial(c.partial);
    ReplaceSlab(c, page, Slab(free[1..], c.slabs[page].inUse + 1), if free[1..] == [] then c.partial[1..] else c.partial);
    var r := Alloc(c, offer);
    assert r.cache.slabs == c.slabs[page := Slab(free[1..], c.slabs[page].inUse + 1)];
    forall a: nat ensures Live(r.cache, a) <==> Live(c, a) || a == free[0] {
      assert a in free[1..] <==> a in free && a != free[0];
    }
  }

  lemma PopPartial(s: seq<nat>)
    requires NoDup(s) && s != []
    ensures NoDup(s[1..]) && forall p :: p in s[1..] <==> p in s && p != s[0]
  {}

  /** A new slab: its first slot is live, the others are free. */
  lemma FreshSlab(page: nat, size: nat)
    requires size > 0 && Capacity(size) >= 1 && page % PAGE_SIZE == 0
    ensures SlabInv(page, size, Slab(SlotsFrom(page, size, 1), 1))
    ensures PageBase(SlotAt(page, size, 0)) == page
    ensures forall a :: a in SlotsFrom(page, size, 1) <==> IsSlot(page, size, a) && a != SlotAt(page, size, 0)
    ensures IsSlot(page, size, SlotAt(page, size, 0))
  {
    hide PageBase, ObjectStart, Capacity, SlotAt;
    var all, rest := SlotsFrom(page, size, 0), SlotsFrom(page, size, 1);
    AllSlots(page, size);
    assert forall j :: 0 <= j < |rest| ==> rest[j] == all[j + 1];
    assert all[0] == SlotAt(page, size, 0) && all[0] in all;
    assert all == [all[0]] + rest;
    assert all[0] !in rest;
    SlotPage(page, size, all[0]);
  }

  lemma AllocFresh(c: Cache, page: nat)
    requires CacheInv(c) && c.partial == [] && Capacity(c.size) > 0 && page % PAGE_SIZE == 0 && page !in c.slabs
    ensures var r := Alloc(c, Some(page));
            && CacheInv(r.cache) && r.cache.size == c.size && r.ptr.Some? && r.drew
            && r.cache.slabs.Keys == c.slabs.Keys + {page}
            && !Live(c, r.ptr.value) && PageBase(r.ptr.value) in r.cache.slabs
            && (forall a: nat :: Live(r.cache, a) <==> Live(c, a) || a == r.ptr.value)
  {
    hide PageBase, ObjectStart, Capacity, SlabInv, IsSlot, SlotAt, SlotsFrom;
    FreshSlab(page, c.size);
  }

  /** Giving back a live object keeps the invariant and makes exactly that object free; the page
      goes back to the provider exactly when it held the last live object. */
  lemma DeallocCorrect(c: Cache, ptr: nat)
    requires CacheInv(c) && Live(c, ptr)
    ensures c.slabs[PageBase(ptr)].inUse > 0
    ensures var r := Dealloc(c, ptr);
            && CacheInv(r.cache) && r.cache.size == c.size
            && (forall a: nat :: Live(r.cache, a) <==> Live(c, a) && a != ptr)
            && r.cache.slabs.Keys == c.slabs.Keys - (if r.released.Some? then {r.released.value} else {})
            && (r.released.Some? ==> r.released.value == PageBase(ptr))
            && (r.released.Some? <==> forall a: nat :: Live(c, a) && PageBase(a) == PageBase(ptr) ==> a == ptr)
  {
    hide PageBase, Capacity, IsSlot, SlotAt;
    var page := PageBase(ptr);
    var slab := c.slabs[page];
    assert SlabInv(page, c.size, slab);
    if slab.inUse == 1 {
      DeallocLast(c, ptr);
    } else {
      DeallocOne(c, ptr);
    }
    HeldPagesAreUsed(Dealloc(c, ptr).cache, page);
  }

  lemma DeallocOne(c: Cache, ptr: nat)
    requires CacheInv(c) && Live(c, ptr) && c.slabs[PageBase(ptr)].inUse > 1
    ensures var r := Dealloc(c, ptr);
            && CacheInv(r.cache) && r.cache.size == c.size && r.released.None?
            && r.cache.slabs.Keys == c.slabs.Keys
            && (forall a: nat :: Live(r.cache, a) <==> Live(c, a) && a != ptr)
  {
    hide PageBase, ObjectStart, Capacity, SlotAt;
    var page := PageBase(ptr);
    var slab := c.slabs[page];
    assert SlabInv(page, c.size, slab);
    assert SlabInv(page, c.size, Slab([ptr] + slab.free, slab.inUse - 1));
    var r := Dealloc(c, ptr);
    assert CacheInv(r.cache);
  }

  lemma DeallocLast(c: Cache, ptr: nat)
    requires CacheInv(c) && Live(c, ptr) && c.slabs[PageBase(ptr)].inUse == 1
    ensures var r := Dealloc(c, ptr);
            && CacheInv(r.cache) && r.cache.size == c.size && r.released == Some(PageBase(ptr))
            && r.cache.slabs.Keys == c.slabs.Keys - {PageBase(ptr)}
            && (forall a: nat :: Live(r.cache, a) <==> Live(c, a) && a != ptr)
  {
    hide PageBase, ObjectStart, Capacity, SlotAt;
    var page := PageBase(ptr);
    WithoutMembers(c.partial, page);
    InUseCountsLive(c, page);
    assert ptr in LiveSlots(page, c);
    assert |LiveSlots(page, c) - {ptr}| == 0;
    forall a: nat | Live(c, a) && PageBase(a) == page ensures a == ptr {
      assert a !in LiveSlots(page, c) - {ptr};
    }
    assert CacheInv(Dealloc(c, ptr).cache);
  }

  // ----- which object is served, and what giving it back undoes

  /** Served is the first free object of the first partial slab, or else the first slot of the page
      drawn; no other slab changes, and the slab leaves the front of the list only when it is full. */
  lemma AllocServesFirst(c: Cache, offer: Option<nat>)
    requires CacheInv(c)
    requires offer.Some? ==> offer.value % PAGE_SIZE == 0 && offer.value !in c.slabs
    ensures var r := Alloc(c, offer);
            && (c.partial != [] ==>
                  var page := c.partial[0];
                  && r.ptr == Some(c.slabs[page].free[0]) && page in r.cache.slabs
                  && c.slabs[page].free == [r.ptr.value] + r.cache.slabs[page].free
                  && c.partial == (if r.cache.slabs[page].free == [] then [page] else []) + r.cache.partial)
            && (r.ptr.Some? && c.partial == [] ==>
                  && r.ptr == Some(SlotAt(offer.value, c.size, 0)) && offer.value in r.cache.slabs
                  && [r.ptr.value] + r.cache.slabs[offer.value].free == SlotsFrom(offer.value, c.size, 0)
                  && r.cache.partial == if r.cache.slabs[offer.value].free == [] then [] else [offer.value])
            && (forall p :: p in c.slabs && (c.partial == [] || p != c.partial[0]) ==> p in r.cache.slabs && r.cache.slabs[p] == c.slabs[p])
  {
    hide PageBase, Capacity, SlabInv, IsSlot, NoDup, SlotAt;
    if c.partial != [] { assert c.partial[0] in c.partial; }
  }

  /** Giving back the object just served restores the cache exactly, and returns the page exactly if
      it was drawn for it. */
  lemma AllocThenDealloc(c: Cache, offer: Option<nat>)
    requires CacheInv(c)
    requires offer.Some? ==> offer.value % PAGE_SIZE == 0 && offer.value !in c.slabs
    ensures var r := Alloc(c, offer);
            r.ptr.Some? ==>
              && PageBase(r.ptr.value) in r.cache.slabs && r.cache.slabs[PageBase(r.ptr.value)].inUse > 0
              && Dealloc(r.cache, r.ptr.value) == Deallocation(c, if r.drew then offer else None)
  {
    if c.partial != [] {
      PartialThenDealloc(c, offer);
    } else if offer.Some? && Capacity(c.size) > 0 {
      FreshThenDealloc(c, offer.value);
    }
  }

  lemma PartialThenDealloc(c: Cache, offer: Option<nat>)
    requires CacheInv(c) && c.partial != []
    ensures var r := Alloc(c, offer);
            && r.ptr.Some? && PageBase(r.ptr.value) in r.cache.slabs && r.cache.slabs[PageBase(r.ptr.value)].inUse > 0 && !r.drew
            && Dealloc(r.cache, r.ptr.value) == Deallocation(c, None)
  {
    hide PageBase, Capacity, IsSlot, NoDup;
    var page := c.partial[0];
    assert page in c.partial;
    var slab, r := c.slabs[page], Alloc(c, offer);
    PopSlot(page, c.size, slab);
    assert [slab.free[0]] + slab.free[1..] == slab.free;
    assert [page] + c.partial[1..] == c.partial;
    assert Dealloc(r.cache, r.ptr.value).cache.slabs == c.slabs;
  }

  lemma FreshThenDealloc(c: Cache, page: nat)
    requires CacheInv(c) && c.partial == [] && Capacity(c.size) > 0 && page % PAGE_SIZE == 0 && page !in c.slabs
    ensures var r := Alloc(c, Some(page));
            && r.ptr.Some? && PageBase(r.ptr.value) in r.cache.slabs && r.cache.slabs[PageBase(r.ptr.value)].inUse > 0 && r.drew
            && Dealloc(r.cache, r.ptr.value) == Deallocation(c, Some(page))
  {
    hide PageBase, Capacity, IsSlot, NoDup, SlotAt, SlotsFrom, SlabInv;
    var r := Alloc(c, Some(page));
    FreshSlab(page, c.size);
    assert [page][1..] == [];
    assert Dealloc(r.cache, r.ptr.value).cache.slabs == c.slabs;
  }

  /** Conversely an object given back is the next one served, if its slab stays and is then first in
      the list, and serving it restores the cache exactly. */
  lemma DeallocThenAlloc(c: Cache, ptr: nat, offer: Option<nat>)
    requires CacheInv(c) && Live(c, ptr) && c.slabs[PageBase(ptr)].inUse > 1
    requires c.slabs[PageBase(ptr)].free == [] || c.partial[0] == PageBase(ptr)
    ensures var d := Dealloc(c, ptr).cache;
            (forall p :: p in d.partial ==> p in d.slabs) && Alloc(d, offer) == Allocation(Some(ptr), c, false)
  {
    hide PageBase, Capacity, IsSlot, NoDup, SlabInv;
    DeallocOne(c, ptr);
    var page := PageBase(ptr);
    var d := Dealloc(c, ptr).cache;
    assert ([ptr] + c.slabs[page].free)[1..] == c.slabs[page].free;
    assert ([page] + c.partial)[1..] == c.partial;
    assert Alloc(d, offer).cache.slabs == c.slabs;
  }

  /** Giving back leaves every other slab and their order alone: an emptied slab leaves the list where
      it stood, one that was full goes to the front. */
  lemma DeallocShape(c: Cache, ptr: nat)
    requires CacheInv(c) && Live(c, ptr)
    ensures c.slabs[PageBase(ptr)].inUse > 0
    ensures var d := Dealloc(c, ptr);
            var page := PageBase(ptr);
            && (forall p :: p in c.slabs && p != page ==> p in d.cache.slabs && d.cache.slabs[p] == c.slabs[p])
            && (d.released.None? ==> page in d.cache.slabs && d.cache.slabs[page].free == [ptr] + c.slabs[page].free)
            && (d.released.None? ==> d.cache.partial == (if page in c.partial then [] else [page]) + c.partial)
            && (d.released.Some? && page !in c.partial ==> d.cache.partial == c.partial)
            && (forall k :: d.released.Some? && 0 <= k < |c.partial| && c.partial[k] == page ==>
                  d.cache.partial == c.partial[..k] + c.partial[k + 1..])
  {
    hide PageBase, Capacity, IsSlot;
    var page := PageBase(ptr);
    assert SlabInv(page, c.size, c.slabs[page]);
    forall k | 0 <= k < |c.partial| && c.partial[k] == page ensures Without(c.partial, page) == c.partial[..k] + c.partial[k + 1..] {
      WithoutAt(c.partial, k);
    }
    WithoutMembers(c.partial, page);
    assert [] + c.partial == c.partial;
  }

  /** The cache after `n` requests, with `page` on offer. */
  function Served(c: Cache, page: nat, n: nat): (d: Cache)
    requires c.size > 0 && c.partial == [] && n <= Capacity(c.size)
    ensures d == if n == 0 then c
                 else c.(partial := if n == Capacity(c.size) then [] else [page],
                         slabs := c.slabs[page := Slab(SlotsFrom(page, c.size, n), n)])
  {
    if n == 0 then c
    else
      var d := Served(c, page, n - 1);
      assert n < Capacity(c.size) ==> SlotsFrom(page, c.size, n) != [];
      Alloc(d, Some(page)).cache
  }

  /** A fresh page serves its slots in address order until it is full. */
  lemma ServesInAddressOrder(c: Cache, page: nat, n: nat)
    requires c.size > 0 && c.partial == [] && n < Capacity(c.size)
    ensures var d := Served(c, page, n);
            (forall p :: p in d.partial ==> p in d.slabs) && Alloc(d, Some(page)).ptr == Some(SlotAt(page, c.size, n))
  {
    hide Capacity, SlotAt;
  }

  // ----- object sizes that do not fit

  /** A page has room for an object exactly when the first slot ends inside it. */
  lemma CapacityExact(size: nat)
    requires size > 0
    ensures Capacity(size) > 0 <==> ObjectStart(size) + size <= PAGE_SIZE
  {
    hide ObjectStart;
    var room := PAGE_SIZE - ObjectStart(size);
    if room >= size {
      DivAtLeastOne(room, size);
    } else if room > 0 {
      DivUnique(room, size, 0, room);
    }
  }

  /** The page drawn from the provider ends up in the cache exactly when the first slot ends inside
      it; otherwise the allocation fails and leaves the cache as it was. */
  lemma DrawnPageIsKept(c: Cache, page: nat)
    requires CacheInv(c) && c.partial == [] && page % PAGE_SIZE == 0 && page !in c.slabs
    ensures Alloc(c, Some(page)).drew
    ensures page in Alloc(c, Some(page)).cache.slabs <==> ObjectStart(c.size) + c.size <= PAGE_SIZE
    ensures page !in Alloc(c, Some(page)).cache.slabs ==> Alloc(c, Some(page)).ptr.None? && Alloc(c, Some(page)).cache == c
  {
    hide ObjectStart, Capacity;
    CapacityExact(c.size);
  }

  /** A size that does not fit: page-sized objects would start at the end of the page. */
  lemma PageSizedObjects()
    ensures ObjectStart(PAGE_SIZE) == PAGE_SIZE && Capacity(PAGE_SIZE) == 0
    ensures CacheInv(Cache(PAGE_SIZE, [], map[]))
  {
    hide ObjectStart, Capacity;
    assert Pow2(12) == PAGE_SIZE;
    ObjectStartOf(12);
    CapacityExact(PAGE_SIZE);
  }
}

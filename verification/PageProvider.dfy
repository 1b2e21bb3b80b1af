/** Single pages drawn from and given back to the frame allocator, by address. */
module PageProvider {
  import opened Bits
  import opened Blocks
  import opened Seqs
  import opened BuddySpec
  import S = Slab

  /** The page the provider would hand out next. */
  function Offer(lists: FreeLists, offset: nat): Option<nat>
    requires |lists| == MAX_ORDER
  {
    match Take(lists, 0)
    case None => None
    case Some((p, _)) => Some(offset + p * PAGE_SIZE)
  }

  /** The provider's lists after its page was drawn or not. */
  function Drawn(lists: FreeLists, drew: bool): (r: FreeLists)
    requires |lists| == MAX_ORDER
    ensures |r| == MAX_ORDER
  {
    if drew && Take(lists, 0).Some? then Take(lists, 0).value.1 else lists
  }

  /** The provider's lists after it got a page back or not. */
  function Returned(lists: FreeLists, released: Option<nat>, offset: nat): (r: FreeLists)
    requires |lists| == MAX_ORDER && (released.Some? ==> released.value >= offset)
    ensures |r| == MAX_ORDER
  {
    if released.None? then lists else Release(lists, (released.value - offset) / PAGE_SIZE, 0)
  }

  /** A page taken from a valid provider is page-aligned and was free. */
  lemma FreshOffer(lists: FreeLists, offset: nat)
    requires Inv(lists) && Take(lists, 0).Some? && offset % PAGE_SIZE == 0
    ensures Free(lists, Take(lists, 0).value.0)
    ensures (offset + Take(lists, 0).value.0 * PAGE_SIZE) % PAGE_SIZE == 0
  {
    TakeCorrect(lists, 0);
    assert InBlock(Take(lists, 0).value.0, Take(lists, 0).value.0, 0);
  }

  /** A page is lost exactly when the object size does not fit: the page the cache drew is then in
      neither the free lists nor the cache. */
  lemma PageLostExactly(c: S.Cache, lists: FreeLists, offset: nat)
    requires Inv(lists) && Take(lists, 0).Some? && offset % PAGE_SIZE == 0
    requires S.CacheInv(c) && c.partial == [] && Offer(lists, offset).value !in c.slabs
    ensures var p := Take(lists, 0).value.0;
            var r := S.Alloc(c, Offer(lists, offset));
            && Free(lists, p) && !Free(Drawn(lists, r.drew), p)
            && (offset + p * PAGE_SIZE !in r.cache.slabs <==> S.ObjectStart(c.size) + c.size > PAGE_SIZE)
  {
    hide S.CacheInv, S.ObjectStart, S.Alloc, Take, Free;
    var p := Take(lists, 0).value.0;
    FreshOffer(lists, offset);
    TakeCorrect(lists, 0);
    assert InBlock(p, p, 0);
    S.DrawnPageIsKept(c, offset + p * PAGE_SIZE);
  }
}

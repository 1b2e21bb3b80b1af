/** `alloc` never looks at the alignment it is asked for. This module states exactly which
    requests are served aligned all the same. */
module HeapAlignment {
  import opened Bits
  import opened Seqs
  import opened BuddySpec
  import opened PageProvider
  import opened Heap
  import opened HeapRuns
  import S = Slab

  /** At this memory offset, whatever the heap's history, the address of a successful request of
      this size is a multiple of `align`. */
  ghost predicate AlwaysAligned(offset: nat, size: nat, align: nat)
    requires align > 0
  {
    forall h :: HeapInv(h) && Ready(h) && h.offset == offset && Alloc(h, size).0.Some? ==> Alloc(h, size).0.value % align == 0
  }

  // ----- powers of two divide one another

  lemma LargerIsMultiple(a: nat, b: nat)
    requires S.IsPow2(a) && S.IsPow2(b) && a <= b
    ensures b % a == 0
  {
    var j, k := S.Log2(a), S.Log2(b);
    if k < j { Pow2Strict(k, j); }
    Pow2Divides(j, k);
  }

  lemma Pow2Strict(k: nat, j: nat)
    requires k < j
    ensures Pow2(k) < Pow2(j)
  {
    Pow2Monotone(k + 1, j);
  }

  lemma DoubleAtMost(a: nat, b: nat)
    requires S.IsPow2(a) && S.IsPow2(b) && a < b
    ensures b % (2 * a) == 0
  {
    assert S.IsPow2(2 * a);
    var j, k := S.Log2(a), S.Log2(b);
    if k <= j { Pow2Monotone(k, j); }
    Pow2Divides(j + 1, k);
  }

  lemma SumOfMultiples(x: nat, y: nat, a: nat)
    requires a > 0 && x % a == 0 && y % a == 0
    ensures (x + y) % a == 0
  {
    var p, q := x / a, y / a;
    assert x + y == a * (p + q);
    MultipleOf(a, p + q);
  }

  // ----- served aligned

  lemma PagePower()
    ensures S.IsPow2(PAGE_SIZE) && PAGE_SIZE == Pow2(12)
  {
    S.Log2OfPow2(12);
    assert Pow2(12) == 4096;
  }

  /** Every slot of a class is a multiple of the class size. */
  lemma SlotAligned(page: nat, i: nat, a: nat)
    requires i < 8 && page % PAGE_SIZE == 0 && S.IsSlot(page, CLASSES[i], a)
    ensures a % CLASSES[i] == 0
  {
    hide S.ObjectStart, S.Capacity;
    var c := CLASSES[i];
    var k: nat :| k < S.Capacity(c) && a == S.SlotAt(page, c, k);
    ClassesFit(i);
    PagePower();
    LargerIsMultiple(c, PAGE_SIZE);
    ModTransitive(page, PAGE_SIZE, c);
    MultipleOf(c, k);
    SumOfMultiples(page, S.ObjectStart(c), c);
    SumOfMultiples(page + S.ObjectStart(c), c * k, c);
  }

  lemma ServedAligned(h: Heap, size: nat, align: nat)
    requires HeapInv(h) && Ready(h) && size <= PAGE_SIZE && S.IsPow2(align) && align <= BlockSize(size)
    requires Alloc(h, size).0.Some?
    ensures Alloc(h, size).0.value % align == 0
  {
    hide S.PageBase, S.ObjectStart, S.Capacity, S.IsSlot, S.Alloc, Inv, Take, FreePage, Owners;
    var (r, t) := Alloc(h, size);
    PagePower();
    if size > LARGEST {
      PageDrawn(h.offset, h.lists);
      LargerIsMultiple(align, PAGE_SIZE);
      ModTransitive(r.value, PAGE_SIZE, align);
    } else {
      AllocSmall(h, size);
      var i := ClassOf(size);
      ClassesFit(i);
      assert t.live[r.value] == size && S.Live(t.caches[i], r.value);
      var page := S.PageBase(r.value);
      assert S.SlabInv(page, CLASSES[i], t.caches[i].slabs[page]);
      SlotAligned(page, i, r.value);
      LargerIsMultiple(align, CLASSES[i]);
      ModTransitive(r.value, CLASSES[i], align);
    }
  }

  // ----- served misaligned

  ghost predicate GoodOffset(offset: nat) {
    offset > 0 && offset % PAGE_SIZE == 0
  }

  /** A heap that was fed its first or its second page and nothing else. */
  ghost function OnePage(offset: nat, k: nat): (h: Heap)
    requires GoodOffset(offset) && k < 2
    ensures HeapInv(h) && Ready(h) && h.offset == offset && h.caches == EmptyHeap(offset).caches
    ensures Offer(h.lists, h.offset) == Some(offset + k * PAGE_SIZE)
  {
    hide HeapInv, Managed, Ready;
    var e := EmptyHeap(offset);
    var a := offset + k * PAGE_SIZE;
    EmptyHeapInv(offset);
    PageAddress(offset, k);
    AddFrameStep(e, a);
    var h := AddFrame(e, a);
    InvReady(h);
    assert Release(e.lists, k, 0) == e.lists[0 := [k] + e.lists[0]];
    assert h.lists[0] == [k];
    h
  }

  /** Of two neighbouring pages one is not a multiple of anything larger than a page. */
  lemma NeighbourPages(offset: nat, align: nat)
    requires align > PAGE_SIZE && offset % align == 0
    ensures (offset + PAGE_SIZE) % align != 0
  {
    DivUnique(offset + PAGE_SIZE, align, offset / align, PAGE_SIZE);
  }

  lemma MisalignedLarge(offset: nat, size: nat, align: nat)
    requires GoodOffset(offset) && LARGEST < size <= PAGE_SIZE < align
    ensures !AlwaysAligned(offset, size, align)
  {
    hide HeapInv;
    var k := if offset % align == 0 then 1 else 0;
    if k == 1 { NeighbourPages(offset, align); }
    var h := OnePage(offset, k);
    assert Alloc(h, size).0 == Some(offset + k * PAGE_SIZE);
  }

  lemma NotMultiple(x: nat, align: nat, m: nat)
    requires m > 0 && align > 0 && align % m == 0 && x % m != 0
    ensures x % align != 0
  {
    if x % align == 0 { ModTransitive(x, align, m); }
  }

  /** The first object of a fresh slab sits one object size into the page. */
  lemma MisalignedSmall(offset: nat, size: nat, align: nat)
    requires GoodOffset(offset) && 16 < size <= LARGEST && S.IsPow2(align) && align > BlockSize(size)
    ensures !AlwaysAligned(offset, size, align)
  {
    hide HeapInv, S.ObjectStart, S.Capacity, Inv, Take, S.SlotsFrom, S.IsPow2;
    var h := OnePage(offset, 0);
    var i := ClassOf(size);
    ClassesFit(i);
    var r := Alloc(h, size).0;
    assert r == Some(S.SlotAt(offset, CLASSES[i], 0)) && r.value == offset + CLASSES[i];
    PageAndObject(offset, i, align);
  }

  lemma PageAndObject(offset: nat, i: nat, align: nat)
    requires GoodOffset(offset) && 0 < i < 8 && S.IsPow2(CLASSES[i]) && S.IsPow2(align) && align > CLASSES[i]
    ensures (offset + CLASSES[i]) % align != 0
  {
    var c := CLASSES[i];
    DoubleAtMost(c, align);
    OddHalf(offset, i);
    NotMultiple(offset + c, align, 2 * c);
  }

  lemma OddHalf(offset: nat, i: nat)
    requires offset % PAGE_SIZE == 0 && i < 8
    ensures (offset + CLASSES[i]) % (2 * CLASSES[i]) == CLASSES[i]
  {
    var c := CLASSES[i];
    assert PAGE_SIZE % (2 * c) == 0;
    ModTransitive(offset, PAGE_SIZE, 2 * c);
    DivUnique(offset + c, 2 * c, offset / (2 * c), c);
  }

  /** Sixteen-byte objects start 32 bytes into the page, so the second one is the odd one out. */
  lemma MisalignedSixteen(offset: nat, size: nat, align: nat)
    requires GoodOffset(offset) && size <= 16 && S.IsPow2(align) && align > BlockSize(size)
    ensures !AlwaysAligned(offset, size, align)
  {
    hide HeapInv, S.ObjectStart, S.IsPow2, S.PageBase, Managed, Inv, Take;
    var h := OnePage(offset, 0);
    ClassesFit(0);
    AllocSmall(h, size);
    var g := Alloc(h, size).1;
    InvReady(g);
    var rest := S.SlotsFrom(offset, 16, 1);
    assert |rest| > 0 && rest[0] == S.SlotAt(offset, 16, 1);
    assert g.caches[0].partial == [offset] && g.caches[0].slabs[offset].free == rest;
    var r := Alloc(g, size).0;
    assert r == Some(rest[0]) && r.value == offset + 48;
    DoubleAtMost(16, align);
    ThirdSixteenth(offset);
    NotMultiple(r.value, align, 32);
  }

  lemma ThirdSixteenth(offset: nat)
    requires offset % PAGE_SIZE == 0
    ensures (offset + 48) % 32 == 16
  {}

  /** The exact condition, at every memory offset: a power-of-two alignment is always honoured if
      and only if it does not exceed the block set aside for the size (in particular whenever it
      does not exceed the size). */
  lemma AlignmentExact(offset: nat, size: nat, align: nat)
    requires GoodOffset(offset) && size <= PAGE_SIZE && S.IsPow2(align)
    ensures AlwaysAligned(offset, size, align) <==> align <= BlockSize(size)
    ensures align <= size ==> align <= BlockSize(size)
  {
    hide HeapInv, Ready, GoodOffset;
    assert align > 0;
    if size <= LARGEST { ClassIsTightest(size); }
    if align <= BlockSize(size) {
      forall h | HeapInv(h) && Ready(h) && h.offset == offset && Alloc(h, size).0.Some? ensures Alloc(h, size).0.value % align == 0 {
        ServedAligned(h, size, align);
      }
    } else if size > LARGEST {
      MisalignedLarge(offset, size, align);
    } else if size > 16 {
      MisalignedSmall(offset, size, align);
    } else {
      MisalignedSixteen(offset, size, align);
    }
  }
}

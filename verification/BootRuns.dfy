/** The boot allocator's operations on values, and whole runs of them. */
module BootRuns {
  import opened Bits
  import opened Seqs
  import opened BootRanges

  /** Physical addresses have at most 52 bits. */
  const PHYS_LIMIT: nat := 0x10_0000_0000_0000

  datatype Boot = Boot(ranges: seq<Range>, taken: nat, total: nat)

  /** All of the free ranges lie in physical memory and the array holds them. */
  ghost predicate RangesOk(b: Boot) {
    && Valid(b.ranges) && |b.ranges| <= MAX_RANGES
    && forall i :: 0 <= i < |b.ranges| ==> b.ranges[i].end <= PHYS_LIMIT
  }

  /** `memory` is the set of bytes the allocator was given: free bytes are some of them, and the
      counters say how many. */
  ghost predicate BootInv(b: Boot, memory: set<nat>) {
    && RangesOk(b)
    && Bytes(b.ranges) <= memory && (forall x :: x in memory ==> x < PHYS_LIMIT)
    && b.total == |memory| && SumLen(b.ranges) + b.taken == b.total
  }

  // ----- operations

  ghost predicate PowerOfTwo(align: nat) {
    exists k: nat :: k <= 63 && align == Pow2(k)
  }

  /** None of the sums a request forms overflows 64 bits; an empty request forms none. */
  ghost predicate NoOverflow(b: Boot, count: nat, align: nat) {
    count == 0 || (count * PAGE_SIZE < WORD && ScanFits(b.ranges, count * PAGE_SIZE, align, 0))
  }

  function Allocate(b: Boot, count: nat, align: nat): (r: (Option<nat>, Boot))
    requires NoOverflow(b, count, align)
  {
    if count == 0 then (None, b)
    else
      match FirstFit(b.ranges, count * PAGE_SIZE, align, 0)
      case None => (None, b)
      case Some(i) =>
        var a := AlignUp(b.ranges[i].start, align);
        (Some(a), Boot(Carve(b.ranges, i, a, count * PAGE_SIZE), b.taken + count * PAGE_SIZE, b.total))
  }

  /** Inserting into a full array panics, even if the ranges would coalesce afterwards. */
  datatype Freed = Done(boot: Boot) | Panic

  function SaturatingSub(x: nat, y: nat): nat {
    if x >= y then x - y else 0
  }

  function Free(b: Boot, start: nat, count: nat): Freed {
    if count == 0 then Done(b)
    else if |b.ranges| >= MAX_RANGES then Panic
    else Done(Boot(Coalesce(Insert(b.ranges, Range(start, start + count * PAGE_SIZE))),
                   SaturatingSub(b.taken, count * PAGE_SIZE), b.total))
  }

  // ----- allocation

  /** Rounding keeps page alignment, whatever the alignment asked for. */
  lemma RoundedIsPage(x: nat, align: nat)
    requires x % PAGE_SIZE == 0 && 1 <= align <= WORD && x + align - 1 < WORD
    ensures AlignUp(x, align) % PAGE_SIZE == 0
  {
    hide And, Pow2;
    TwelfthPower();
    WordIsPow2();
    MaskedSumKeepsMultiples(x, align - 1, 12, 64);
  }

  /** For a power of two the rounded address is the lowest multiple not below `x`. */
  lemma AlignedStart(x: nat, align: nat)
    requires PowerOfTwo(align) && x + align - 1 < WORD
    ensures 1 <= align <= WORD
    ensures x <= AlignUp(x, align) && AlignUp(x, align) % align == 0
    ensures forall a: nat :: a % align == 0 && a >= x ==> a >= AlignUp(x, align)
  {
    hide AlignUp, Pow2;
    var k: nat :| k <= 63 && align == Pow2(k);
    WordIsPow2();
    Pow2Monotone(k, 64);
    AlignUpCorrect(x, k);
  }

  lemma TwelfthPower()
    ensures Pow2(12) == 4096
  {}

  /** A power of two leaves room above physical addresses. */
  lemma RoundingRoom(x: nat, align: nat)
    requires PowerOfTwo(align) && x <= PHYS_LIMIT
    ensures 1 <= align && x + align - 1 < WORD && AlignUp(x, align) + PHYS_LIMIT < WORD
  {
    hide AlignUp, Pow2;
    var k: nat :| k <= 63 && align == Pow2(k);
    WordIsPow2();
    assert Pow2(64) == 2 * Pow2(63) by { TopPower(); }
    Pow2Monotone(k, 63);
    AlignUpCorrect(x, k);
  }

  lemma TopPower()
    ensures Pow2(64) == 2 * Pow2(63)
  {}

  /** At a power-of-two alignment the sums fit for every range, not only for those scanned: a size
      they could overflow with is one that no range serves. */
  lemma AllSumsFit(b: Boot, count: nat, align: nat, k: nat)
    requires RangesOk(b) && NoOverflow(b, count, align) && count > 0 && PowerOfTwo(align) && k < |b.ranges|
    ensures SumsFit(b.ranges[k].start, count * PAGE_SIZE, align)
  {
    hide AlignUp, PowerOfTwo, ScanFits;
    assert RangeOk(b.ranges[k]);
    var size := count * PAGE_SIZE;
    RoundingRoom(b.ranges[k].start, align);
    if size > PHYS_LIMIT {
      ScanReaches(b.ranges, size, align, 0, k);
    }
  }

  /** Allocation keeps the invariant for every alignment; a success takes exactly its bytes out of
      the free bytes, keeps a coalesced list coalesced, never needs more than the array holds, and
      honours a power-of-two alignment. */
  lemma AllocateCorrect(b: Boot, memory: set<nat>, count: nat, align: nat)
    requires BootInv(b, memory) && NoOverflow(b, count, align)
    ensures var (r, t) := Allocate(b, count, align);
            && BootInv(t, memory) && (Coalesced(b.ranges) ==> Coalesced(t.ranges))
            && (r.None? ==> t == b)
            && (r.Some? ==>
                  var block := Interval(r.value, r.value + count * PAGE_SIZE);
                  && count > 0 && r.value % PAGE_SIZE == 0
                  && (PowerOfTwo(align) ==> align > 0 && r.value % align == 0)
                  && block <= Bytes(b.ranges) && Bytes(t.ranges) == Bytes(b.ranges) - block
                  && t.taken == b.taken + count * PAGE_SIZE)
  {
    hide AlignUp, Bytes, SumLen, Interval, Pow2, Carve, Valid, Coalesced, PowerOfTwo, ScanFits;
    var (r, t) := Allocate(b, count, align);
    if r.Some? {
      var size := count * PAGE_SIZE;
      var i := FirstFit(b.ranges, size, align, 0).value;
      ValidAt(b.ranges, i);
      RoundedIsPage(b.ranges[i].start, align);
      if PowerOfTwo(align) { AlignedStart(b.ranges[i].start, align); }
      CarveCorrect(b.ranges, i, r.value, size);
      CarveFits(b, i, r.value, size);
    }
  }

  lemma ValidAt(rs: seq<Range>, i: nat)
    requires Valid(rs) && i < |rs|
    ensures RangeOk(rs[i])
  {}

  lemma CarveFits(b: Boot, i: nat, a: nat, size: nat)
    requires RangesOk(b) && i < |b.ranges| && size > 0
    requires b.ranges[i].start <= a && a + size <= b.ranges[i].end
    requires |Pieces(b.ranges[i], a, size)| <= 1 || |b.ranges| < MAX_RANGES
    ensures |Carve(b.ranges, i, a, size)| <= MAX_RANGES
    ensures forall k :: 0 <= k < |Carve(b.ranges, i, a, size)| ==> Carve(b.ranges, i, a, size)[k].end <= PHYS_LIMIT
  {
    var ps := Pieces(b.ranges[i], a, size);
    var t := Carve(b.ranges, i, a, size);
    assert forall k :: 0 <= k < |t| ==>
        t[k] == if k < i then b.ranges[k] else if k < i + |ps| then ps[k - i] else b.ranges[k - |ps| + 1];
  }

  /** Block `[a, a + size)` is aligned and lies inside range `i`. */
  ghost predicate FitsAt(rs: seq<Range>, i: nat, a: nat, size: nat, align: nat)
    requires align > 0
  {
    i < |rs| && a % align == 0 && rs[i].start <= a && a + size <= rs[i].end
  }

  /** A request the allocator can answer: some pages at a power-of-two alignment, with room in
      the array for a split. */
  ghost predicate Request(b: Boot, memory: set<nat>, count: nat, align: nat) {
    && BootInv(b, memory) && NoOverflow(b, count, align)
    && count > 0 && PowerOfTwo(align) && |b.ranges| < MAX_RANGES
  }

  /** First fit is exact: the result is the lowest aligned address whose block lies inside one
      free range, and there is none exactly when no such address exists. */
  lemma AllocateLowest(b: Boot, memory: set<nat>, count: nat, align: nat)
    requires Request(b, memory, count, align)
    ensures align > 0
    ensures var r := Allocate(b, count, align).0;
            && (r.None? <==> forall i: nat, a: nat :: !FitsAt(b.ranges, i, a, count * PAGE_SIZE, align))
            && (r.Some? ==> exists i: nat :: FitsAt(b.ranges, i, r.value, count * PAGE_SIZE, align))
            && (r.Some? ==> forall i: nat, a: nat :: FitsAt(b.ranges, i, a, count * PAGE_SIZE, align) ==> r.value <= a)
  {
    hide AlignUp, Bytes, SumLen, Interval, PowerOfTwo, ScanFits;
    var size := count * PAGE_SIZE;
    assert align > 0 by { RoundingRoom(0, align); }
    var fit := FirstFit(b.ranges, size, align, 0);
    forall i: nat, a: nat | FitsAt(b.ranges, i, a, size, align)
      ensures Serves(b.ranges, i, size, align) && AlignUp(b.ranges[i].start, align) <= a
    {
      AllSumsFit(b, count, align, i);
      AlignedStart(b.ranges[i].start, align);
    }
    if fit.Some? {
      var i := fit.value;
      AlignedStart(b.ranges[i].start, align);
      assert FitsAt(b.ranges, i, AlignUp(b.ranges[i].start, align), size, align);
    }
  }

  // ----- any alignment, and a full array

  /** The block can be taken: there is room for one more range, or the block reaches an end of its
      range and leaves at most one piece. */
  ghost predicate Takeable(rs: seq<Range>, r: Range, a: nat, size: nat) {
    r.start <= a && a + size <= r.end && (|rs| < MAX_RANGES || a == r.start || a + size == r.end)
  }

  ghost predicate TakenAt(rs: seq<Range>, i: nat, size: nat, align: nat) {
    i < |rs| && SumsFit(rs[i].start, size, align) && Takeable(rs, rs[i], AlignUp(rs[i].start, align), size)
  }

  lemma ServesIffTakeable(rs: seq<Range>, i: nat, size: nat, align: nat)
    ensures Serves(rs, i, size, align) <==> TakenAt(rs, i, size, align)
  {
    hide AlignUp;
  }

  /** What is left of a range before `a`, and from `a` on. */
  function LeftOf(r: Range, a: nat): seq<Range> {
    if a > r.start then [Range(r.start, a)] else []
  }

  function RightOf(r: Range, a: nat): seq<Range> {
    if a < r.end then [Range(a, r.end)] else []
  }

  /** First fit for every alignment and a list of any length: the rounded start of the first range in
      which the block at that address can be taken, none exactly when there is no such range. What is
      left of the range takes its place, and the other ranges stay as they are, touching or not. */
  lemma AllocateFirst(b: Boot, count: nat, align: nat)
    requires NoOverflow(b, count, align)
    ensures var (r, t) := Allocate(b, count, align);
            && (r.None? <==> count == 0 || forall i: nat :: !TakenAt(b.ranges, i, count * PAGE_SIZE, align))
            && (r.Some? ==> exists i: nat ::
                  && TakenAt(b.ranges, i, count * PAGE_SIZE, align) && r.value == AlignUp(b.ranges[i].start, align)
                  && t.ranges == b.ranges[..i] + LeftOf(b.ranges[i], r.value) + RightOf(b.ranges[i], r.value + count * PAGE_SIZE) + b.ranges[i + 1..]
                  && forall j: nat :: j < i ==> !TakenAt(b.ranges, j, count * PAGE_SIZE, align))
  {
    hide AlignUp, Serves, TakenAt, ScanFits, SumsFit;
    var size := count * PAGE_SIZE;
    forall i: nat ensures Serves(b.ranges, i, size, align) <==> TakenAt(b.ranges, i, size, align) {
      ServesIffTakeable(b.ranges, i, size, align);
    }
    forall i: nat | TakenAt(b.ranges, i, size, align) ensures i < |b.ranges| { InList(b.ranges, i, size, align); }
    var (r, t) := Allocate(b, count, align);
    if r.Some? {
      var i := FirstFit(b.ranges, size, align, 0).value;
      assert TakenAt(b.ranges, i, size, align);
      var lo, hi := LeftOf(b.ranges[i], r.value), RightOf(b.ranges[i], r.value + size);
      assert b.ranges[..i] + (lo + hi) + b.ranges[i + 1..] == b.ranges[..i] + lo + hi + b.ranges[i + 1..];
    }
  }

  lemma InList(rs: seq<Range>, i: nat, size: nat, align: nat)
    requires TakenAt(rs, i, size, align)
    ensures i < |rs| && SumsFit(rs[i].start, size, align) && 1 <= align <= WORD && rs[i].start + align - 1 < WORD
  {
    hide AlignUp;
  }

  /** The lowest aligned place for the block in range `i`. */
  ghost predicate LowestIn(rs: seq<Range>, i: nat, a: nat, size: nat, align: nat)
    requires align > 0
  {
    FitsAt(rs, i, a, size, align) && forall z: nat :: FitsAt(rs, i, z, size, align) ==> a <= z
  }

  /** With a full array a request at a power-of-two alignment fails exactly when the lowest fit of every
      range would leave two pieces. */
  lemma FullArrayFailsExactly(b: Boot, memory: set<nat>, count: nat, align: nat)
    requires BootInv(b, memory) && NoOverflow(b, count, align) && count > 0 && PowerOfTwo(align) && |b.ranges| == MAX_RANGES
    ensures align > 0
    ensures Allocate(b, count, align).0.None? <==>
              forall i: nat, a: nat :: LowestIn(b.ranges, i, a, count * PAGE_SIZE, align) ==>
                b.ranges[i].start < a && a + count * PAGE_SIZE < b.ranges[i].end
  {
    hide AlignUp, PowerOfTwo, ScanFits, Allocate, BootInv;
    var size := count * PAGE_SIZE;
    RoundingRoom(0, align);
    AllocateFirst(b, count, align);
    InvRanges(b, memory);
    if i: nat :| TakenAt(b.ranges, i, size, align) {
      InList(b.ranges, i, size, align);
      var a := AlignUp(b.ranges[i].start, align);
      LowestIsRounded(b, count, align, i, a);
      assert LowestIn(b.ranges, i, a, size, align);
    }
    if i: nat, a: nat :| LowestIn(b.ranges, i, a, size, align) && !(b.ranges[i].start < a && a + size < b.ranges[i].end) {
      LowestIsRounded(b, count, align, i, a);
      assert TakenAt(b.ranges, i, size, align);
    }
  }

  lemma InvRanges(b: Boot, memory: set<nat>)
    requires BootInv(b, memory)
    ensures RangesOk(b)
  {}

  ghost predicate RoundedFit(rs: seq<Range>, i: nat, a: nat, size: nat, align: nat) {
    && i < |rs| && SumsFit(rs[i].start, size, align)
    && a == AlignUp(rs[i].start, align) && rs[i].start <= a && a + size <= rs[i].end
  }

  lemma LowestIsRounded(b: Boot, count: nat, align: nat, i: nat, a: nat)
    requires RangesOk(b) && NoOverflow(b, count, align) && count > 0 && PowerOfTwo(align) && i < |b.ranges|
    ensures align > 0
    ensures LowestIn(b.ranges, i, a, count * PAGE_SIZE, align) <==> RoundedFit(b.ranges, i, a, count * PAGE_SIZE, align)
  {
    hide AlignUp, PowerOfTwo, ScanFits;
    var size := count * PAGE_SIZE;
    AllSumsFit(b, count, align, i);
    AlignedStart(b.ranges[i].start, align);
    var x := AlignUp(b.ranges[i].start, align);
    if FitsAt(b.ranges, i, a, size, align) {
      assert FitsAt(b.ranges, i, x, size, align);
    }
  }

  /** An aligned run of free bytes. */
  ghost predicate FreeRun(rs: seq<Range>, a: nat, size: nat, align: nat) {
    align > 0 && a % align == 0 && Interval(a, a + size) <= Bytes(rs)
  }

  /** Completeness against the free set: in a coalesced state allocation fails exactly when no
      aligned run of that many free bytes exists. */
  lemma AllocateComplete(b: Boot, memory: set<nat>, count: nat, align: nat)
    requires Request(b, memory, count, align) && Coalesced(b.ranges)
    ensures Allocate(b, count, align).0.None? <==> !exists a: nat :: FreeRun(b.ranges, a, count * PAGE_SIZE, align)
  {
    hide Bytes, SumLen, Interval, Allocate, NoOverflow, PowerOfTwo;
    AllocateLowest(b, memory, count, align);
    AllocateCorrect(b, memory, count, align);
    var size := count * PAGE_SIZE;
    var r := Allocate(b, count, align).0;
    if r.Some? {
      assert FreeRun(b.ranges, r.value, size, align);
    }
    if a: nat :| FreeRun(b.ranges, a, size, align) {
      RunInOneRange(b.ranges, a, a + size);
      var i :| 0 <= i < |b.ranges| && b.ranges[i].start <= a && a + size <= b.ranges[i].end;
      assert FitsAt(b.ranges, i, a, size, align);
    }
  }

  /** The same memory with touching ranges merged. */
  function Merged(b: Boot): Boot {
    b.(ranges := Coalesce(b.ranges))
  }

  lemma MergedRequest(b: Boot, memory: set<nat>, count: nat, align: nat)
    requires Request(b, memory, count, align)
    ensures Request(Merged(b), memory, count, align)
    ensures Coalesced(Merged(b).ranges) && Bytes(Merged(b).ranges) == Bytes(b.ranges)
  {
    hide Bytes, SumLen, SumsFit, ScanFits, PowerOfTwo, Coalesce;
    var t := Merged(b).ranges;
    CoalesceCorrect(b.ranges);
    forall i | 0 <= i < |t| ensures t[i].end <= PHYS_LIMIT {
      LastByte(t, i);
    }
    forall k | 0 <= k < |t| ensures SumsFit(t[k].start, count * PAGE_SIZE, align) {
      CoalesceStarts(b.ranges, k);
      var j :| 0 <= j < |b.ranges| && b.ranges[j].start == t[k].start;
      AllSumsFit(b, count, align, j);
    }
    AllSumsScan(t, count * PAGE_SIZE, align, 0);
  }

  /** Exactly when allocation misses memory: an aligned free run exists if and only if the merged
      list serves the request, so a request fails beside a run that would serve it exactly when the
      block fits no range of the list as it stands and fits one of the merged list. */
  lemma AllocateMissesExactly(b: Boot, memory: set<nat>, count: nat, align: nat)
    requires Request(b, memory, count, align)
    ensures align > 0 && Request(Merged(b), memory, count, align)
    ensures (exists a: nat :: FreeRun(b.ranges, a, count * PAGE_SIZE, align)) <==> Allocate(Merged(b), count, align).0.Some?
    ensures Allocate(b, count, align).0.Some? ==> Allocate(Merged(b), count, align).0.Some?
    ensures Allocate(b, count, align).0.None? && (exists a: nat :: FreeRun(b.ranges, a, count * PAGE_SIZE, align)) <==>
              && (forall i: nat, a: nat :: !FitsAt(b.ranges, i, a, count * PAGE_SIZE, align))
              && (exists i: nat, a: nat :: FitsAt(Merged(b).ranges, i, a, count * PAGE_SIZE, align))
  {
    hide Bytes, Interval, Allocate, PowerOfTwo, BootInv, Merged, FitsAt, NoOverflow;
    var m := Merged(b);
    MergedRequest(b, memory, count, align);
    AllocateLowest(b, memory, count, align);
    AllocateLowest(m, memory, count, align);
    AllocateComplete(m, memory, count, align);
    if a: nat :| FreeRun(b.ranges, a, count * PAGE_SIZE, align) {
      assert FreeRun(m.ranges, a, count * PAGE_SIZE, align);
    }
    if a: nat :| FreeRun(m.ranges, a, count * PAGE_SIZE, align) {
      assert FreeRun(b.ranges, a, count * PAGE_SIZE, align);
    }
    AllocateCorrect(b, memory, count, align);
    var r := Allocate(b, count, align).0;
    if r.Some? {
      assert FreeRun(b.ranges, r.value, count * PAGE_SIZE, align);
    }
  }

  // ----- alignments that are not powers of two

  ghost predicate AlignmentHonoured(align: nat) {
    forall b: Boot, memory: set<nat>, count: nat ::
      BootInv(b, memory) && NoOverflow(b, count, align) && align > 0 && Allocate(b, count, align).0.Some? ==>
        Allocate(b, count, align).0.value % align == 0
  }

  /** Half of the physical address range. */
  const HALF_PHYS: nat := 0x8_0000_0000_0000

  lemma HalfPhysIsPow2()
    ensures HALF_PHYS == Pow2(51)
  {
    hide Pow2;
    assert Pow2(8) == 256 && Pow2(3) == 8 by { EighthPower(); ThirdPower(); }
    Pow2Add(8, 8);
    Pow2Add(16, 16);
    Pow2Add(32, 16);
    Pow2Add(48, 3);
  }

  lemma ThirdPower()
    ensures Pow2(3) == 8
  {}

  /** One free page in the middle of physical memory. */
  ghost function MiddlePage(): Boot {
    Boot([Range(HALF_PHYS, HALF_PHYS + PAGE_SIZE)], 0, PAGE_SIZE)
  }

  lemma MiddlePageServes(align: nat)
    requires 1 <= align <= HALF_PHYS
    ensures BootInv(MiddlePage(), Interval(HALF_PHYS, HALF_PHYS + PAGE_SIZE)) && NoOverflow(MiddlePage(), 1, align)
    ensures Allocate(MiddlePage(), 1, align).0 == Some(HALF_PHYS)
  {
    hide Pow2, And;
    var b := MiddlePage();
    BytesOne(b.ranges[0]);
    IntervalSize(HALF_PHYS, HALF_PHYS + PAGE_SIZE);
    assert AlignUp(HALF_PHYS, align) == HALF_PHYS by {
      WordIsPow2();
      HalfPhysIsPow2();
      MaskedSumFixesPow2(51, align - 1, 64);
    }
    assert Serves(b.ranges, 0, PAGE_SIZE, align) by { hide AlignUp; }
    assert FirstFit(b.ranges, PAGE_SIZE, align, 0) == Some(0);
  }

  /** An alignment is always honoured exactly when it is a power of two: the allocator masks with
      `!(alignment - 1)` and does not check. */
  lemma AlignmentHonouredExactly(align: nat)
    requires 1 <= align <= HALF_PHYS
    ensures AlignmentHonoured(align) <==> PowerOfTwo(align)
  {
    hide Allocate, NoOverflow, BootInv, Pow2;
    if PowerOfTwo(align) {
      forall b: Boot, memory: set<nat>, count: nat |
        BootInv(b, memory) && NoOverflow(b, count, align) && Allocate(b, count, align).0.Some?
        ensures Allocate(b, count, align).0.value % align == 0
      {
        AllocateCorrect(b, memory, count, align);
      }
    }
    if AlignmentHonoured(align) {
      MiddlePageServes(align);
      HalfPhysIsPow2();
      DivisorOfPow2(align, 51);
    }
  }

  // ----- freeing

  /** What a caller owes: page-aligned memory of the allocator that is not free now. */
  ghost predicate CanFree(b: Boot, memory: set<nat>, start: nat, count: nat) {
    start % PAGE_SIZE == 0 && Interval(start, start + count * PAGE_SIZE) <= memory - Bytes(b.ranges)
  }

  lemma BlockDisjoint(rs: seq<Range>, start: nat, end: nat)
    requires Valid(rs) && start < end && Interval(start, end) !! Bytes(rs)
    ensures forall i :: 0 <= i < |rs| ==> Disjoint(Range(start, end), rs[i])
  {
    forall i | 0 <= i < |rs| ensures Disjoint(Range(start, end), rs[i]) {
      assert RangeOk(rs[i]);
      var x := if start <= rs[i].start then rs[i].start else start;
      if !Disjoint(Range(start, end), rs[i]) {
        assert WithinRange(x, start, end) && WithinRange(x, rs[i].start, rs[i].end);
        BytesIff(rs, x);
      }
    }
  }

  /** The list after a legal free: coalesced, with exactly the freed bytes added. */
  lemma InsertAndMerge(b: Boot, memory: set<nat>, start: nat, count: nat)
    requires BootInv(b, memory) && CanFree(b, memory, start, count) && count > 0
    ensures var size := count * PAGE_SIZE;
            var t := Coalesce(Insert(b.ranges, Range(start, start + size)));
            && Valid(t) && Coalesced(t) && |t| <= |b.ranges| + 1
            && Bytes(t) == Bytes(b.ranges) + Interval(start, start + size) && SumLen(t) == SumLen(b.ranges) + size
  {
    hide Bytes, SumLen, Interval, Insert, Coalesce;
    var r := Range(start, start + count * PAGE_SIZE);
    BlockDisjoint(b.ranges, r.start, r.end);
    InsertCorrect(b.ranges, r);
    InsertMembers(b.ranges, r);
    CoalesceCorrect(Insert(b.ranges, r));
  }

  /** A legal free panics exactly when it frees something and the array is full; otherwise it keeps the
      invariant, adds exactly its bytes, and the byte counter does not saturate. It leaves the list
      coalesced, unless it frees nothing and changes nothing. */
  lemma FreeCorrect(b: Boot, memory: set<nat>, start: nat, count: nat)
    requires BootInv(b, memory) && CanFree(b, memory, start, count)
    ensures Free(b, start, count).Panic? <==> count > 0 && |b.ranges| >= MAX_RANGES
    ensures b.taken >= count * PAGE_SIZE
    ensures count == 0 ==> Free(b, start, count) == Done(b)
    ensures Free(b, start, count).Done? ==>
              var t := Free(b, start, count).boot;
              && BootInv(t, memory) && (count > 0 ==> Coalesced(t.ranges))
              && Bytes(t.ranges) == Bytes(b.ranges) + Interval(start, start + count * PAGE_SIZE)
              && t.taken == b.taken - count * PAGE_SIZE
  {
    hide Bytes, SumLen, Interval, Insert, Coalesce;
    var size := count * PAGE_SIZE;
    var block := Interval(start, start + size);
    if count == 0 {
      EmptyInterval(start);
      return;
    }
    SumLenCountsBytes(b.ranges);
    IntervalSize(start, start + size);
    SubsetSize(block, memory - Bytes(b.ranges));
    assert |memory - Bytes(b.ranges)| == |memory| - |Bytes(b.ranges)|;
    InsertAndMerge(b, memory, start, count);
    var t := Coalesce(Insert(b.ranges, Range(start, start + size)));
    forall i | 0 <= i < |t| ensures t[i].end <= PHYS_LIMIT {
      LastByte(t, i);
    }
  }

  lemma EmptyInterval(a: nat)
    ensures Interval(a, a + 0 * PAGE_SIZE) == {}
  {}

  lemma LastByte(rs: seq<Range>, i: nat)
    requires Valid(rs) && i < |rs|
    ensures rs[i].end > 0 && rs[i].end - 1 in Bytes(rs)
  {
    assert RangeOk(rs[i]);
    BytesIff(rs, rs[i].end - 1);
    assert WithinRange(rs[i].end - 1, rs[i].start, rs[i].end);
  }

  lemma {:induction false} SubsetSize(a: set<nat>, b: set<nat>)
    requires a <= b
    ensures |a| <= |b|
  {
    if a == {} {
    } else {
      var x :| x in a;
      SubsetSize(a - {x}, b - {x});
    }
  }

  /** Canonical round trip: putting back what was just taken from a coalesced state and merging
      gives the ranges that were there, and the free restores the state exactly, unless the split
      filled the array: then the free panics before it merges. */
  lemma AllocateThenFree(b: Boot, memory: set<nat>, count: nat, align: nat)
    requires BootInv(b, memory) && NoOverflow(b, count, align) && Coalesced(b.ranges)
    ensures var (r, t) := Allocate(b, count, align);
            r.Some? ==>
              && CanFree(t, memory, r.value, count)
              && Coalesce(Insert(t.ranges, Range(r.value, r.value + count * PAGE_SIZE))) == b.ranges
              && Free(t, r.value, count) == if |t.ranges| < MAX_RANGES then Done(b) else Panic
  {
    hide Bytes, SumLen, Interval, Insert, Coalesce, Allocate, NoOverflow, PowerOfTwo;
    AllocateCorrect(b, memory, count, align);
    var (r, t) := Allocate(b, count, align);
    if r.Some? {
      var size := count * PAGE_SIZE;
      FreeCorrect(t, memory, r.value, count);
      InsertAndMerge(t, memory, r.value, count);
      var u := Coalesce(Insert(t.ranges, Range(r.value, r.value + size)));
      assert Bytes(u) == Bytes(b.ranges);
      CoalescedIsUnique(u, b.ranges);
    }
  }

  // ----- runs

  datatype Event = Alloc(count: nat, align: nat) | Release(start: nat, count: nat)

  ghost predicate Legal(b: Boot, memory: set<nat>, e: Event) {
    match e
    case Alloc(count, align) => NoOverflow(b, count, align)
    case Release(start, count) => CanFree(b, memory, start, count)
  }

  /** One event; `None` once the allocator has panicked. */
  ghost function Step(b: Boot, memory: set<nat>, e: Event): (t: Option<Boot>)
    requires BootInv(b, memory) && Legal(b, memory, e)
    ensures t.Some? ==> BootInv(t.value, memory)
    ensures t.None? <==> e.Release? && e.count > 0 && |b.ranges| == MAX_RANGES
    ensures t.Some? && (Coalesced(b.ranges) || (e.Release? && e.count > 0)) ==> Coalesced(t.value.ranges)
  {
    match e
    case Alloc(count, align) =>
      AllocateCorrect(b, memory, count, align);
      Some(Allocate(b, count, align).1)
    case Release(start, count) =>
      FreeCorrect(b, memory, start, count);
      if Free(b, start, count).Panic? then None else Some(Free(b, start, count).boot)
  }

  ghost predicate LegalRun(b: Boot, memory: set<nat>, es: seq<Event>)
    requires BootInv(b, memory)
    decreases |es|
  {
    es == [] || (Legal(b, memory, es[0]) && (Step(b, memory, es[0]).Some? ==> LegalRun(Step(b, memory, es[0]).value, memory, es[1..])))
  }

  ghost function Final(b: Boot, memory: set<nat>, es: seq<Event>): (t: Option<Boot>)
    requires BootInv(b, memory) && LegalRun(b, memory, es)
    decreases |es|
  {
    if es == [] then Some(b)
    else if Step(b, memory, es[0]).None? then None
    else Final(Step(b, memory, es[0]).value, memory, es[1..])
  }

  /** Run invariant: every state a run reaches has sorted, page-aligned, non-empty, disjoint ranges
      whose lengths add up to the bytes not taken; once coalesced a run stays coalesced, and
      then its ranges are determined by its free bytes alone. */
  lemma {:induction false} RunInvariant(b: Boot, memory: set<nat>, es: seq<Event>)
    requires BootInv(b, memory) && LegalRun(b, memory, es) && Final(b, memory, es).Some?
    ensures BootInv(Final(b, memory, es).value, memory)
    ensures Coalesced(b.ranges) ==> Coalesced(Final(b, memory, es).value.ranges)
    ensures (exists i :: 0 <= i < |es| && es[i].Release? && es[i].count > 0) ==> Coalesced(Final(b, memory, es).value.ranges)
    decreases |es|
  {
    hide BootInv, Coalesced;
    if es == [] {
    } else {
      RunInvariant(Step(b, memory, es[0]).value, memory, es[1..]);
      if i :| 0 <= i < |es| && es[i].Release? && es[i].count > 0 {
        assert i > 0 ==> es[1..][i - 1] == es[i];
      }
    }
  }

  /** The bytes callers hold after a run that begins with `held`. */
  ghost function HeldBytes(b: Boot, memory: set<nat>, es: seq<Event>, held: set<nat>): set<nat>
    requires BootInv(b, memory) && LegalRun(b, memory, es)
    decreases |es|
  {
    if es == [] || Step(b, memory, es[0]).None? then held
    else HeldBytes(Step(b, memory, es[0]).value, memory, es[1..], HeldAfter(b, memory, es[0], held))
  }

  ghost function HeldAfter(b: Boot, memory: set<nat>, e: Event, held: set<nat>): set<nat>
    requires BootInv(b, memory) && Legal(b, memory, e)
  {
    match e
    case Alloc(count, align) =>
      var r := Allocate(b, count, align).0;
      if r.Some? then held + Interval(r.value, r.value + count * PAGE_SIZE) else held
    case Release(start, count) => held - Interval(start, start + count * PAGE_SIZE)
  }

  lemma StepConservesBytes(b: Boot, memory: set<nat>, e: Event, held: set<nat>)
    requires BootInv(b, memory) && Legal(b, memory, e) && held == memory - Bytes(b.ranges) && Step(b, memory, e).Some?
    ensures HeldAfter(b, memory, e, held) == memory - Bytes(Step(b, memory, e).value.ranges)
  {
    hide Bytes, SumLen, Interval, Allocate, Free, Coalesced, NoOverflow, PowerOfTwo;
    match e
    case Alloc(count, align) => AllocateCorrect(b, memory, count, align);
    case Release(start, count) => FreeCorrect(b, memory, start, count);
  }

  /** Conservation over runs: at every point the bytes callers hold and the free bytes are exactly
      the memory the allocator was given, and share nothing. */
  lemma {:induction false} RunConservesBytes(b: Boot, memory: set<nat>, es: seq<Event>, held: set<nat>)
    requires BootInv(b, memory) && LegalRun(b, memory, es) && Final(b, memory, es).Some?
    requires held == memory - Bytes(b.ranges)
    ensures HeldBytes(b, memory, es, held) == memory - Bytes(Final(b, memory, es).value.ranges)
    decreases |es|
  {
    hide BootInv, Bytes, HeldAfter, Step;
    if es == [] {
    } else {
      StepConservesBytes(b, memory, es[0], held);
      RunConservesBytes(Step(b, memory, es[0]).value, memory, es[1..], HeldAfter(b, memory, es[0], held));
    }
  }

  /** Two runs from the same start that end coalesced with the same bytes free end in the same state. */
  lemma RunsConverge(b: Boot, memory: set<nat>, es: seq<Event>, fs: seq<Event>)
    requires BootInv(b, memory) && Coalesced(b.ranges) && LegalRun(b, memory, es) && LegalRun(b, memory, fs)
    requires Final(b, memory, es).Some? && Final(b, memory, fs).Some?
    requires Bytes(Final(b, memory, es).value.ranges) == Bytes(Final(b, memory, fs).value.ranges)
    ensures Final(b, memory, es) == Final(b, memory, fs)
  {
    hide Bytes, SumLen, Coalesced, Valid, LegalRun, Final;
    RunInvariant(b, memory, es);
    RunInvariant(b, memory, fs);
    var s, t := Final(b, memory, es).value, Final(b, memory, fs).value;
    CoalescedIsUnique(s.ranges, t.ranges);
  }
}

/** The boot frame allocator: a fixed-capacity array of free ranges updated in place. */
module BootAllocator {
  import opened Bits
  import opened Seqs
  import opened BootRanges
  import opened BootRuns

  /** A region of the bootloader's memory map. */
  datatype Region = Region(start: nat, end: nat, usable: bool)

  // ----- building the array from the memory map

  /** The whole pages inside a region, if there are any. */
  function WholePages(g: Region): Range {
    Range((g.start + PAGE_SIZE - 1) / PAGE_SIZE * PAGE_SIZE, g.end / PAGE_SIZE * PAGE_SIZE)
  }

  /** The sum and the words of a usable region fit 64 bits. */
  ghost predicate RegionFits(g: Region) {
    g.usable ==> g.start + PAGE_SIZE - 1 < WORD && g.end < WORD
  }

  /** On such a region the two masks of the initialisation loop round to whole pages. */
  lemma WholePagesByMask(g: Region)
    requires g.usable && RegionFits(g)
    ensures And(g.start + PAGE_SIZE - 1, WORD - PAGE_SIZE) == WholePages(g).start
    ensures And(g.end, WORD - PAGE_SIZE) == WholePages(g).end
  {
    MaskIsRounding(g.start + PAGE_SIZE - 1);
    MaskIsRounding(g.end);
  }

  lemma MaskIsRounding(x: nat)
    requires x < WORD
    ensures And(x, WORD - PAGE_SIZE) == x / PAGE_SIZE * PAGE_SIZE
  {
    hide And, AlignDown, Shr, Pow2;
    WordIsPow2();
    TwelfthPower();
    MaskClearsLowBits(x, 12, 64);
    AlignDownIsRounding(x, 12);
    DivUnique(x, PAGE_SIZE, Shr(x, 12), x - AlignDown(x, 12));
  }

  predicate Counts(g: Region) {
    g.usable && WholePages(g).end > WholePages(g).start
  }

  /** The first `room` usable regions, in memory-map order. */
  function Collect(gs: seq<Region>, room: nat): seq<Range> {
    if gs == [] || room == 0 then []
    else if Counts(gs[0]) then [WholePages(gs[0])] + Collect(gs[1..], room - 1)
    else Collect(gs[1..], room)
  }

  lemma CollectStep(gs: seq<Region>, n: nat, room: nat)
    requires n < |gs|
    ensures Collect(gs[n..], room) ==
              if room > 0 && Counts(gs[n]) then [WholePages(gs[n])] + Collect(gs[n + 1..], room - 1) else Collect(gs[n + 1..], room)
  {
    assert gs[n..][0] == gs[n] && gs[n..][1..] == gs[n + 1..];
  }

  lemma EmptySum()
    ensures SumLen([]) == 0
  {}

  lemma CollectEnd(gs: seq<Region>, room: nat)
    ensures Collect(gs[|gs|..], room) == []
  {}

  /** Insertion sort: each range goes behind those that start no higher. */
  function SortRanges(rs: seq<Range>): seq<Range> {
    if rs == [] then [] else Insert(SortRanges(rs[..|rs| - 1]), rs[|rs| - 1])
  }

  ghost predicate StartsSorted(rs: seq<Range>) {
    forall i, j :: 0 <= i < j < |rs| ==> rs[i].start <= rs[j].start
  }

  lemma SortedBelow(s: seq<Range>, j: nat, key: Range)
    requires StartsSorted(s) && j <= |s| && (j > 0 ==> s[j - 1].start <= key.start)
    ensures forall k :: 0 <= k < j ==> s[k].start <= key.start
  {}

  lemma {:induction false} InsertStartsSorted(rs: seq<Range>, r: Range)
    requires StartsSorted(rs)
    ensures StartsSorted(Insert(rs, r))
  {
    if rs == [] || r.start < rs[0].start {
    } else {
      InsertStartsSorted(rs[1..], r);
      InsertMembers(rs[1..], r);
      var t := Insert(rs[1..], r);
      forall i | 0 <= i < |t| ensures rs[0].start <= t[i].start { assert t[i] in t; }
      assert forall i :: 0 < i < |Insert(rs, r)| ==> Insert(rs, r)[i] == t[i - 1];
    }
  }

  lemma {:induction false} SortRangesSorted(rs: seq<Range>)
    ensures StartsSorted(SortRanges(rs)) && |SortRanges(rs)| == |rs|
    ensures forall r :: r in SortRanges(rs) <==> r in rs
  {
    if rs == [] {
    } else {
      var t := rs[..|rs| - 1];
      SortRangesSorted(t);
      InsertStartsSorted(SortRanges(t), rs[|rs| - 1]);
      InsertMembers(SortRanges(t), rs[|rs| - 1]);
      assert rs == t + [rs[|rs| - 1]];
    }
  }

  lemma SortStep(rs: seq<Range>, i: nat)
    requires i < |rs|
    ensures SortRanges(rs[..i + 1]) == Insert(SortRanges(rs[..i]), rs[i])
  {
    assert rs[..i + 1][..i] == rs[..i];
  }

  lemma SortOne(rs: seq<Range>)
    ensures |rs| <= 1 ==> SortRanges(rs) == rs
    ensures |rs| > 0 ==> SortRanges(rs[..1]) == rs[..1]
  {
    if |rs| > 0 {
      assert rs[..1] == [rs[0]] && [rs[0]][..0] == [];
      assert Insert([], rs[0]) == [rs[0]];
      assert |rs| == 1 ==> rs == [rs[0]];
    }
  }

  ghost predicate PairwiseDisjoint(rs: seq<Range>) {
    forall i, j :: 0 <= i < j < |rs| ==> Disjoint(rs[i], rs[j])
  }

  /** Sorting ranges that do not overlap gives a valid list with the same bytes. */
  lemma {:induction false} SortRangesValid(rs: seq<Range>)
    requires PairwiseDisjoint(rs) && forall i :: 0 <= i < |rs| ==> RangeOk(rs[i])
    ensures Valid(SortRanges(rs)) && Bytes(SortRanges(rs)) == Bytes(rs) && SumLen(SortRanges(rs)) == SumLen(rs)
  {
    if rs == [] {
    } else {
      SortRangesValid(rs[..|rs| - 1]);
      SortRangesSorted(rs[..|rs| - 1]);
      InsertLast(rs, SortRanges(rs[..|rs| - 1]));
    }
  }

  lemma InsertLast(rs: seq<Range>, s: seq<Range>)
    requires PairwiseDisjoint(rs) && rs != [] && RangeOk(rs[|rs| - 1]) && Valid(s)
    requires var t := rs[..|rs| - 1];
             Bytes(s) == Bytes(t) && SumLen(s) == SumLen(t) && forall x :: x in s ==> x in t
    ensures var u := Insert(s, rs[|rs| - 1]);
            Valid(u) && Bytes(u) == Bytes(rs) && SumLen(u) == SumLen(rs)
  {
    hide Bytes, SumLen, Insert, Valid, RangeOk, Disjoint;
    var t, r := rs[..|rs| - 1], rs[|rs| - 1];
    forall i | 0 <= i < |s| ensures Disjoint(r, s[i]) {
      assert s[i] in t;
      var j :| 0 <= j < |t| && t[j] == s[i];
      DisjointSymmetric(rs[j], r);
    }
    InsertCorrect(s, r);
    assert rs == t + [r];
    BytesConcat(t, [r]);
    BytesOne(r);
  }

  lemma DisjointSymmetric(r: Range, s: Range)
    ensures Disjoint(r, s) <==> Disjoint(s, r)
  {}

  /** Regions of a sound memory map: usable regions do not overlap and lie in physical memory, and
      rounding their starts does not overflow. */
  ghost predicate SoundMap(gs: seq<Region>) {
    && (forall i :: 0 <= i < |gs| && gs[i].usable ==> gs[i].end <= PHYS_LIMIT && gs[i].start + PAGE_SIZE - 1 < WORD)
    && (forall i, j :: 0 <= i < j < |gs| && gs[i].usable && gs[j].usable ==> gs[i].end <= gs[j].start || gs[j].end <= gs[i].start)
  }

  /** The page-aligned part of a region. */
  lemma WholePagesInside(g: Region)
    ensures g.start <= WholePages(g).start && WholePages(g).end <= g.end
    ensures Counts(g) ==> RangeOk(WholePages(g))
  {}

  /** Every collected range is the page-aligned part of a usable region. */
  ghost predicate FromRegion(gs: seq<Region>, r: Range) {
    exists i :: 0 <= i < |gs| && Counts(gs[i]) && r == WholePages(gs[i])
  }

  /** Page-aligned parts of usable regions, none overlapping another. */
  ghost predicate GoodRanges(gs: seq<Region>, rs: seq<Range>) {
    && (forall k :: 0 <= k < |rs| ==> FromRegion(gs, rs[k]))
    && PairwiseDisjoint(rs)
  }

  lemma {:induction false} CollectOk(gs: seq<Region>, room: nat)
    requires SoundMap(gs)
    ensures |Collect(gs, room)| <= room && GoodRanges(gs, Collect(gs, room))
  {
    hide Counts, FromRegion, PairwiseDisjoint, Disjoint;
    if gs == [] || room == 0 {
      GoodEmpty(gs);
    } else {
      CollectOk(gs[1..], if Counts(gs[0]) then room - 1 else room);
      GoodTail(gs, Collect(gs[1..], if Counts(gs[0]) then room - 1 else room));
    }
  }

  lemma GoodEmpty(gs: seq<Region>)
    ensures GoodRanges(gs, [])
  {}

  lemma GoodTail(gs: seq<Region>, t: seq<Range>)
    requires SoundMap(gs) && gs != [] && GoodRanges(gs[1..], t)
    ensures GoodRanges(gs, t) && (Counts(gs[0]) ==> GoodRanges(gs, [WholePages(gs[0])] + t))
  {
    hide FromRegion, WholePages, Disjoint;
    forall k | 0 <= k < |t| ensures FromRegion(gs, t[k]) && (Counts(gs[0]) ==> Disjoint(WholePages(gs[0]), t[k])) {
      TailRegion(gs, t[k]);
    }
    if Counts(gs[0]) {
      var c := [WholePages(gs[0])] + t;
      assert FromRegion(gs, c[0]) by { HeadRegion(gs); }
      assert forall k :: 0 < k < |c| ==> c[k] == t[k - 1];
    }
  }

  lemma HeadRegion(gs: seq<Region>)
    requires gs != [] && Counts(gs[0])
    ensures FromRegion(gs, WholePages(gs[0]))
  {}

  lemma RegionRange(gs: seq<Region>, r: Range)
    requires SoundMap(gs) && FromRegion(gs, r)
    ensures RangeOk(r) && r.end <= PHYS_LIMIT
  {
    hide WholePages;
    var i :| 0 <= i < |gs| && Counts(gs[i]) && r == WholePages(gs[i]);
    WholePagesInside(gs[i]);
  }

  lemma TailRegion(gs: seq<Region>, r: Range)
    requires SoundMap(gs) && gs != [] && FromRegion(gs[1..], r)
    ensures FromRegion(gs, r) && (Counts(gs[0]) ==> Disjoint(WholePages(gs[0]), r))
  {
    hide WholePages;
    var i :| 0 <= i < |gs[1..]| && Counts(gs[1..][i]) && r == WholePages(gs[1..][i]);
    assert gs[1..][i] == gs[i + 1];
    WholePagesInside(gs[0]);
    WholePagesInside(gs[i + 1]);
  }

  /** The state initialisation produces. */
  function Initial(gs: seq<Region>): Boot {
    var rs := Collect(gs, MAX_RANGES);
    Boot(SortRanges(rs), 0, if SumLen(rs) >= 0 then SumLen(rs) else 0)
  }

  /** From a sound memory map initialisation establishes the run invariant over exactly the bytes
      of the ranges it collected. */
  lemma InitialInv(gs: seq<Region>)
    requires SoundMap(gs)
    ensures BootInv(Initial(gs), Bytes(Collect(gs, MAX_RANGES)))
    ensures Bytes(Initial(gs).ranges) == Bytes(Collect(gs, MAX_RANGES))
  {
    var rs := Collect(gs, MAX_RANGES);
    CollectOk(gs, MAX_RANGES);
    forall k | 0 <= k < |rs| ensures RangeOk(rs[k]) && rs[k].end <= PHYS_LIMIT { RegionRange(gs, rs[k]); }
    SortRangesValid(rs);
    SortRangesSorted(rs);
    var s := SortRanges(rs);
    SumLenCountsBytes(s);
    forall i | 0 <= i < |s| ensures s[i].end <= PHYS_LIMIT { assert s[i] in s; }
    forall x | x in Bytes(rs) ensures x < PHYS_LIMIT { BytesIff(s, x); }
  }

  /** Byte `y` lies in a usable region of the memory map. */
  ghost predicate UsableByte(gs: seq<Region>, y: nat) {
    exists i :: 0 <= i < |gs| && gs[i].usable && WithinRange(y, gs[i].start, gs[i].end)
  }

  /** Nothing outside usable memory is collected. */
  lemma CollectedIsUsable(gs: seq<Region>, y: nat)
    requires SoundMap(gs) && y in Bytes(Collect(gs, MAX_RANGES))
    ensures UsableByte(gs, y)
  {
    hide WholePages, Bytes, Collect;
    var rs := Collect(gs, MAX_RANGES);
    CollectOk(gs, MAX_RANGES);
    BytesIff(rs, y);
    var k :| 0 <= k < |rs| && WithinRange(y, rs[k].start, rs[k].end);
    assert FromRegion(gs, rs[k]);
    var i :| 0 <= i < |gs| && Counts(gs[i]) && rs[k] == WholePages(gs[i]);
    WholePagesInside(gs[i]);
    assert WithinRange(y, gs[i].start, gs[i].end);
  }

  // ----- what initialisation leaves behind

  /** How many regions hold a whole usable page. */
  function CountRegions(gs: seq<Region>): nat {
    if gs == [] then 0 else (if Counts(gs[0]) then 1 else 0) + CountRegions(gs[1..])
  }

  /** The page at `p` lies inside a usable region. */
  ghost predicate UsablePage(gs: seq<Region>, p: nat) {
    p % PAGE_SIZE == 0 && exists i :: 0 <= i < |gs| && PageInRegion(gs[i], p)
  }

  ghost predicate PageInRegion(g: Region, p: nat) {
    g.usable && g.start <= p && p + PAGE_SIZE <= g.end
  }

  lemma PageInWholePages(g: Region, p: nat)
    requires p % PAGE_SIZE == 0
    ensures PageInRegion(g, p) <==> g.usable && WithinRange(p, WholePages(g).start, WholePages(g).end)
    ensures PageInRegion(g, p) ==> Counts(g)
  {}

  lemma {:induction false} CollectsAll(gs: seq<Region>, room: nat, i: nat)
    requires CountRegions(gs) <= room && i < |gs| && Counts(gs[i])
    ensures WholePages(gs[i]) in Collect(gs, room)
  {
    hide Counts, WholePages;
    if i == 0 {
      CountPositive(gs, 0);
    } else {
      CountPositive(gs, i);
      CollectsAll(gs[1..], if Counts(gs[0]) then room - 1 else room, i - 1);
    }
  }

  lemma {:induction false} CountPositive(gs: seq<Region>, i: nat)
    requires i < |gs| && Counts(gs[i])
    ensures CountRegions(gs) > 0
  {
    hide Counts;
    if i == 0 {
    } else {
      CountPositive(gs[1..], i - 1);
    }
  }

  ghost predicate FromBefore(gs: seq<Region>, r: Range, i: nat) {
    exists j :: 0 <= j < i && j < |gs| && Counts(gs[j]) && r == WholePages(gs[j])
  }

  /** With more regions than room, one of them comes after all that were collected. */
  lemma {:induction false} LeavesOneOut(gs: seq<Region>, room: nat) returns (i: nat)
    requires CountRegions(gs) > room
    ensures i < |gs| && Counts(gs[i]) && forall r :: r in Collect(gs, room) ==> FromBefore(gs, r, i)
  {
    hide Counts, WholePages;
    if room == 0 && Counts(gs[0]) {
      i := 0;
    } else {
      var k := LeavesOneOut(gs[1..], if Counts(gs[0]) then room - 1 else room);
      i := k + 1;
      forall r | r in Collect(gs, room) ensures FromBefore(gs, r, i) {
        if r in Collect(gs[1..], if Counts(gs[0]) then room - 1 else room) {
          var j :| 0 <= j < k && j < |gs[1..]| && Counts(gs[1..][j]) && r == WholePages(gs[1..][j]);
          assert gs[j + 1] == gs[1..][j];
        }
      }
    }
  }

  /** The whole pages of every region that holds one, in memory-map order. */
  function AllRanges(gs: seq<Region>): seq<Range> {
    if gs == [] then [] else (if Counts(gs[0]) then [WholePages(gs[0])] else []) + AllRanges(gs[1..])
  }

  /** Collected are the first of them, as many as there is room for. */
  lemma {:induction false} CollectIsFirst(gs: seq<Region>, room: nat)
    ensures |AllRanges(gs)| == CountRegions(gs)
    ensures Collect(gs, room) == AllRanges(gs)[..if CountRegions(gs) <= room then CountRegions(gs) else room]
  {
    hide Counts, WholePages;
    if gs == [] {
    } else if Counts(gs[0]) {
      CollectIsFirst(gs[1..], if room == 0 then 0 else room - 1);
    } else {
      CollectIsFirst(gs[1..], room);
      assert AllRanges(gs) == AllRanges(gs[1..]);
    }
  }

  /** All whole pages of usable memory are collected if and only if the array has room for all
      regions that hold one: whatever comes after the 256th is dropped. */
  lemma CollectsAllExactly(gs: seq<Region>)
    requires SoundMap(gs)
    ensures (forall p: nat :: UsablePage(gs, p) ==> p in Bytes(Collect(gs, MAX_RANGES))) <==> CountRegions(gs) <= MAX_RANGES
  {
    hide Bytes, Collect, CountRegions, WholePages, Counts, FromBefore, PageInRegion, SoundMap;
    var rs := Collect(gs, MAX_RANGES);
    if CountRegions(gs) <= MAX_RANGES {
      forall p: nat | UsablePage(gs, p) ensures p in Bytes(rs) {
        var i :| 0 <= i < |gs| && PageInRegion(gs[i], p);
        PageInWholePages(gs[i], p);
        CollectsAll(gs, MAX_RANGES, i);
        InBytes(rs, WholePages(gs[i]), p);
      }
    } else {
      var i := LeavesOneOut(gs, MAX_RANGES);
      var p := WholePages(gs[i]).start;
      CountsHasPage(gs[i]);
      assert UsablePage(gs, p);
      if p in Bytes(rs) {
        BytesIff(rs, p);
        var k :| 0 <= k < |rs| && WithinRange(p, rs[k].start, rs[k].end);
        BeforeIsApart(gs, rs[k], i);
      }
    }
  }

  lemma InBytes(rs: seq<Range>, r: Range, y: nat)
    requires r in rs && WithinRange(y, r.start, r.end)
    ensures y in Bytes(rs)
  {
    BytesIff(rs, y);
  }

  lemma CountsHasPage(g: Region)
    requires Counts(g)
    ensures WholePages(g).start % PAGE_SIZE == 0 && PageInRegion(g, WholePages(g).start)
  {}

  lemma BeforeIsApart(gs: seq<Region>, r: Range, i: nat)
    requires SoundMap(gs) && i < |gs| && Counts(gs[i]) && FromBefore(gs, r, i)
    ensures !WithinRange(WholePages(gs[i]).start, r.start, r.end)
  {
    hide WholePages;
    var j :| 0 <= j < i && j < |gs| && Counts(gs[j]) && r == WholePages(gs[j]);
    WholePagesInside(gs[i]);
    WholePagesInside(gs[j]);
  }

  // ----- every list is some start

  /** A memory map with exactly these ranges usable. */
  function Regions(rs: seq<Range>): (gs: seq<Region>)
    ensures |gs| == |rs| && forall i :: 0 <= i < |rs| ==> gs[i] == Region(rs[i].start, rs[i].end, true)
  {
    seq(|rs|, i requires 0 <= i < |rs| => Region(rs[i].start, rs[i].end, true))
  }

  lemma {:induction false} CollectRegionsOf(rs: seq<Range>, gs: seq<Region>, room: nat)
    requires Valid(rs) && gs == Regions(rs) && |rs| <= room
    ensures Collect(gs, room) == rs
  {
    if rs == [] {
    } else {
      assert RangeOk(rs[0]);
      AlignedIsWhole(gs[0]);
      assert gs[1..] == Regions(rs[1..]);
      CollectRegionsOf(rs[1..], gs[1..], room - 1);
    }
  }

  lemma AlignedIsWhole(g: Region)
    requires g.usable && RangeOk(Range(g.start, g.end))
    ensures Counts(g) && WholePages(g) == Range(g.start, g.end)
  {}

  lemma {:induction false} SortedStays(rs: seq<Range>)
    requires Valid(rs)
    ensures SortRanges(rs) == rs
  {
    hide Insert;
    if rs == [] {
    } else {
      var n := |rs| - 1;
      SortedStays(rs[..n]);
      forall k | 0 <= k < n ensures rs[..n][k].start <= rs[n].start { assert RangeOk(rs[k]); }
      InsertAt(rs[..n], rs[n], n);
      assert rs == rs[..n][..n] + [rs[n]] + rs[..n][n..];
    }
  }

  /** Every valid list of ranges in physical memory is what initialisation makes of a sound map. */
  lemma StartFrom(rs: seq<Range>)
    requires Valid(rs) && |rs| <= MAX_RANGES && forall i :: 0 <= i < |rs| ==> rs[i].end <= PHYS_LIMIT
    ensures SoundMap(Regions(rs)) && Collect(Regions(rs), MAX_RANGES) == rs
    ensures Initial(Regions(rs)) == Boot(rs, 0, |Bytes(rs)|) && BootInv(Initial(Regions(rs)), Bytes(rs))
  {
    hide Collect, SortRanges, Bytes, SumLen;
    var gs := Regions(rs);
    forall i | 0 <= i < |gs| ensures gs[i].end <= PHYS_LIMIT && gs[i].start + PAGE_SIZE - 1 < WORD { assert RangeOk(rs[i]); }
    CollectRegionsOf(rs, gs, MAX_RANGES);
    SortedStays(rs);
    SumLenCountsBytes(rs);
    InitialInv(gs);
  }

  // ----- starts at which something fails

  lemma PageIsPowerOfTwo()
    ensures PowerOfTwo(PAGE_SIZE)
  {
    TwelfthPower();
    assert 12 <= 63 && PAGE_SIZE == Pow2(12);
  }

  /** A page address is its own rounding. */
  lemma PageRounds(x: nat)
    requires x % PAGE_SIZE == 0 && x <= PHYS_LIMIT
    ensures x + PAGE_SIZE - 1 < WORD && AlignUp(x, PAGE_SIZE) == x
  {
    hide AlignUp, PowerOfTwo;
    PageIsPowerOfTwo();
    AlignedStart(x, PAGE_SIZE);
  }

  ghost function Touching(): seq<Range> {
    [Range(0, PAGE_SIZE), Range(PAGE_SIZE, 2 * PAGE_SIZE)]
  }

  /** Initialisation does not merge, so the first allocations may miss memory: two touching usable
      regions of one page each leave a free run of two pages that allocation does not find. */
  lemma StartMayHideRuns()
    ensures var gs := Regions(Touching());
            var b := Initial(gs);
            && SoundMap(gs) && b.ranges == Touching() && Request(b, Bytes(Collect(gs, MAX_RANGES)), 2, PAGE_SIZE)
            && FreeRun(b.ranges, 0, 2 * PAGE_SIZE, PAGE_SIZE)
            && Allocate(b, 2, PAGE_SIZE).0.None?
  {
    hide AlignUp, Bytes, PowerOfTwo, BootInv, Initial, Collect, SoundMap;
    var rs := Touching();
    StartFrom(rs);
    PageIsPowerOfTwo();
    PageRounds(0);
    PageRounds(PAGE_SIZE);
    assert !Serves(rs, 0, 2 * PAGE_SIZE, PAGE_SIZE) && !Serves(rs, 1, 2 * PAGE_SIZE, PAGE_SIZE);
    assert ScanFits(rs, 2 * PAGE_SIZE, PAGE_SIZE, 0) && FirstFit(rs, 2 * PAGE_SIZE, PAGE_SIZE, 0) == None;
    forall x: nat | x in Interval(0, 0 + 2 * PAGE_SIZE) ensures x in Bytes(rs) {
      BytesIff(rs, x);
      assert WithinRange(x, rs[0].start, rs[0].end) || WithinRange(x, rs[1].start, rs[1].end);
    }
  }

  /** The list with the first page of memory alone. */
  ghost function FirstPage(): seq<Range> {
    [Range(0, PAGE_SIZE)]
  }

  /** With one usable page at address 0 the first allocation takes it and leaves nothing. */
  lemma FirstPageStart()
    ensures var b := Initial(Regions(FirstPage()));
            && SoundMap(Regions(FirstPage())) && BootInv(b, Bytes(FirstPage())) && b == Boot(FirstPage(), 0, PAGE_SIZE)
            && NoOverflow(b, 1, PAGE_SIZE) && Allocate(b, 1, PAGE_SIZE) == (Some(0), Boot([], PAGE_SIZE, PAGE_SIZE))
  {
    hide AlignUp, PowerOfTwo, BootInv, Initial, SoundMap;
    var rs := FirstPage();
    StartFrom(rs);
    BytesOne(rs[0]);
    IntervalSize(0, PAGE_SIZE);
    PageRounds(0);
    assert ScanFits(rs, PAGE_SIZE, PAGE_SIZE, 0) && FirstFit(rs, PAGE_SIZE, PAGE_SIZE, 0) == Some(0);
    assert Carve(rs, 0, 0, PAGE_SIZE) == [];
  }

  /** A coalesced list one short of full, whose first range has pages 1, 2 and 3. */
  ghost function Crowded(): (rs: seq<Range>)
    ensures |rs| == MAX_RANGES - 1 && forall i :: 0 <= i < |rs| ==> rs[i] == CrowdedRange(i)
  {
    seq(MAX_RANGES - 1, (i: nat) => CrowdedRange(i))
  }

  ghost function CrowdedRange(i: nat): Range {
    if i == 0 then Range(PAGE_SIZE, 4 * PAGE_SIZE) else Range((2 * i + 4) * PAGE_SIZE, (2 * i + 5) * PAGE_SIZE)
  }

  lemma CrowdedValid()
    ensures Valid(Crowded()) && Coalesced(Crowded()) && forall i :: 0 <= i < |Crowded()| ==> Crowded()[i].end <= PHYS_LIMIT
  {
    hide Crowded, CrowdedRange;
    var rs := Crowded();
    forall i | 0 <= i < |rs| ensures RangeOk(rs[i]) && rs[i].end <= PHYS_LIMIT { CrowdedStep(i, i); }
    forall i, j | 0 <= i < j < |rs| ensures rs[i].end < rs[j].start { CrowdedStep(i, j); }
  }

  lemma CrowdedStep(i: nat, j: nat)
    requires j < MAX_RANGES
    ensures RangeOk(CrowdedRange(i)) && (i < j ==> CrowdedRange(i).end < CrowdedRange(j).start) && CrowdedRange(j).end <= PHYS_LIMIT
  {}

  /** Pages 1 to 3 hold one page at an even address, which splits them. */
  lemma CrowdedServes()
    ensures PowerOfTwo(2 * PAGE_SIZE) && Serves(Crowded(), 0, PAGE_SIZE, 2 * PAGE_SIZE)
    ensures AlignUp(PAGE_SIZE, 2 * PAGE_SIZE) == 2 * PAGE_SIZE
  {
    hide AlignUp, Pow2;
    assert 2 * PAGE_SIZE == Pow2(13) by { ThirteenthPower(); }
    AlignedStart(PAGE_SIZE, 2 * PAGE_SIZE);
    assert (2 * PAGE_SIZE) % (2 * PAGE_SIZE) == 0;
  }

  lemma ThirteenthPower()
    ensures Pow2(13) == 2 * PAGE_SIZE
  {}

  lemma CrowdedSplits(b: Boot)
    requires b.ranges == Crowded()
    ensures NoOverflow(b, 1, 2 * PAGE_SIZE)
    ensures var (r, t) := Allocate(b, 1, 2 * PAGE_SIZE); r == Some(2 * PAGE_SIZE) && |t.ranges| == MAX_RANGES
  {
    hide AlignUp, PowerOfTwo, Crowded;
    CrowdedServes();
    assert FirstFit(b.ranges, PAGE_SIZE, 2 * PAGE_SIZE, 0) == Some(0);
  }

  /** Freeing the block just allocated panics, although merging would have made room. */
  ghost predicate CannotGiveBack(b: Boot, memory: set<nat>, count: nat, align: nat) {
    && BootInv(b, memory) && NoOverflow(b, count, align)
    && var (r, t) := Allocate(b, count, align);
    && r.Some? && BootInv(t, memory) && CanFree(t, memory, r.value, count) && Free(t, r.value, count) == Panic
    && |Coalesce(Insert(t.ranges, Range(r.value, r.value + count * PAGE_SIZE)))| < MAX_RANGES
  }

  /** From a coalesced list with room that happens exactly when the split fills the array. */
  lemma SplitThatFills(b: Boot, memory: set<nat>, count: nat, align: nat)
    requires BootInv(b, memory) && NoOverflow(b, count, align) && Coalesced(b.ranges) && |b.ranges| < MAX_RANGES
    ensures CannotGiveBack(b, memory, count, align) <==>
              Allocate(b, count, align).0.Some? && |Allocate(b, count, align).1.ranges| == MAX_RANGES
  {
    hide Bytes, Insert, Coalesce, PowerOfTwo, Coalesced, Interval, Allocate, NoOverflow, CanFree;
    AllocateCorrect(b, memory, count, align);
    AllocateThenFree(b, memory, count, align);
  }

  /** Such a start exists: a page taken from the middle of the first range fills the array. */
  lemma FreeMayPanic()
    ensures SoundMap(Regions(Crowded())) && CannotGiveBack(Initial(Regions(Crowded())), Bytes(Crowded()), 1, 2 * PAGE_SIZE)
  {
    hide Bytes, BootInv, Coalesced, Crowded, Initial, SoundMap, Valid, Allocate, NoOverflow, CannotGiveBack, Regions;
    CrowdedValid();
    StartFrom(Crowded());
    CrowdedSplits(Initial(Regions(Crowded())));
    SplitThatFills(Initial(Regions(Crowded())), Bytes(Crowded()), 1, 2 * PAGE_SIZE);
  }

  // ----- carving is remove and reinsert

  /** Removing the range and inserting what is left of it puts the pieces where it was. */
  lemma CarveByInsert(rs: seq<Range>, i: nat, a: nat, size: nat)
    requires Valid(rs) && i < |rs| && rs[i].start <= a && size > 0 && a + size <= rs[i].end
    ensures var r := rs[i];
            var u := rs[..i] + rs[i + 1..];
            var v := if a > r.start then Insert(u, Range(r.start, a)) else u;
            var w := if a + size < r.end then Insert(v, Range(a + size, r.end)) else v;
            Carve(rs, i, a, size) == w
  {
    hide Insert, Valid;
    var r := rs[i];
    var lo, hi := rs[..i], rs[i + 1..];
    Neighbours(rs, i);
    if a > r.start {
      var p := Range(r.start, a);
      InsertBetween(lo, hi, p);
      if a + size < r.end {
        InsertBetween(lo + [p], hi, Range(a + size, r.end));
      }
    } else if a + size < r.end {
      InsertBetween(lo, hi, Range(a + size, r.end));
    }
  }

  lemma Neighbours(rs: seq<Range>, i: nat)
    requires Valid(rs) && i < |rs|
    ensures rs[i].start < rs[i].end
    ensures forall k :: 0 <= k < i ==> rs[..i][k].start < rs[i].start
    ensures i + 1 < |rs| ==> rs[i].end <= rs[i + 1..][0].start
  {
    assert forall k :: 0 <= k < |rs| ==> RangeOk(rs[k]);
  }

  lemma InsertBetween(lo: seq<Range>, hi: seq<Range>, p: Range)
    requires (forall k :: 0 <= k < |lo| ==> lo[k].start <= p.start) && (hi != [] ==> p.start < hi[0].start)
    ensures Insert(lo + hi, p) == lo + [p] + hi
  {
    InsertAt(lo + hi, p, |lo|);
    assert (lo + hi)[..|lo|] == lo && (lo + hi)[|lo|..] == hi;
  }

  // ----- one step of the scanning loops

  lemma FitStep(rs: seq<Range>, size: nat, align: nat, i: nat)
    requires i < |rs| && ScanFits(rs, size, align, i)
    ensures SumsFit(rs[i].start, size, align) && (!Serves(rs, i, size, align) ==> ScanFits(rs, size, align, i + 1))
    ensures FirstFit(rs, size, align, i) == if Serves(rs, i, size, align) then Some(i) else FirstFit(rs, size, align, i + 1)
  {}

  lemma FitEnd(rs: seq<Range>, size: nat, align: nat)
    ensures ScanFits(rs, size, align, |rs|) && FirstFit(rs, size, align, |rs|).None?
  {}

  lemma OneRange(s: seq<Range>)
    ensures |s| < 2 ==> Coalesce(s) == s
  {}

  lemma CoalesceStep(s: seq<Range>, i: nat)
    requires i + 1 < |s|
    ensures s[i].end == s[i + 1].start ==> Coalesce(s[i..]) == Coalesce([Range(s[i].start, s[i + 1].end)] + s[i + 2..])
    ensures s[i].end != s[i + 1].start ==> s[..i] + Coalesce(s[i..]) == s[..i + 1] + Coalesce(s[i + 1..])
  {
    hide Coalesce;
    CoalesceHead(s[i..]);
    assert s[i..][2..] == s[i + 2..] && s[i..][1..] == s[i + 1..];
    assert s[..i + 1] == s[..i] + [s[i]];
  }

  lemma CoalesceHead(t: seq<Range>)
    requires |t| >= 2
    ensures Coalesce(t) == if t[0].end == t[1].start then Coalesce([Range(t[0].start, t[1].end)] + t[2..])
                           else [t[0]] + Coalesce(t[1..])
  {}

  lemma ShiftedAround(t: seq<Range>, s: seq<Range>, key: Range, j: nat)
    requires j <= |s| && |t| == |s| + 1 && t[j] == key
    requires (forall k :: 0 <= k < j ==> t[k] == s[k]) && forall k :: j < k < |t| ==> t[k] == s[k - 1]
    ensures t == s[..j] + [key] + s[j..]
  {}

  class BootInfoFrameAllocator {
    const freeRanges: array<Range>
    var rangeCount: nat
    var allocatedBytes: nat
    var totalBytes: nat

    ghost predicate Shape()
      reads this
    {
      freeRanges.Length == MAX_RANGES && rangeCount <= MAX_RANGES
    }

    function Active(): seq<Range>
      requires Shape()
      reads this, freeRanges
    {
      freeRanges[..rangeCount]
    }

    function View(): Boot
      requires Shape()
      reads this, freeRanges
    {
      Boot(Active(), allocatedBytes, totalBytes)
    }

    ghost predicate Valid(memory: set<nat>)
      reads this, freeRanges
    {
      Shape() && BootInv(View(), memory)
    }

    constructor Init(memoryMap: seq<Region>)
      requires forall i :: 0 <= i < |memoryMap| ==> RegionFits(memoryMap[i])
      ensures Shape() && fresh(freeRanges) && View() == Initial(memoryMap)
    {
      freeRanges := new Range[MAX_RANGES](_ => Range(0, 0));
      rangeCount, allocatedBytes, totalBytes := 0, 0, 0;
      new;
      CollectRegions(memoryMap);
      InsertionSort();
    }

    /** Append the whole pages of every usable region, while there is room. */
    method CollectRegions(memoryMap: seq<Region>)
      requires Shape() && rangeCount == 0 && totalBytes == 0
      requires forall i :: 0 <= i < |memoryMap| ==> RegionFits(memoryMap[i])
      modifies this`rangeCount, this`totalBytes, freeRanges
      ensures Shape() && Active() == Collect(memoryMap, MAX_RANGES) && totalBytes == SumLen(Active())
    {
      hide Collect, SumLen, WholePages, And;
      ghost var all := Collect(memoryMap, MAX_RANGES);
      assert memoryMap[0..] == memoryMap;
      EmptySum();
      for n := 0 to |memoryMap|
        invariant Shape() && totalBytes == SumLen(Active())
        invariant all == Active() + Collect(memoryMap[n..], MAX_RANGES - rangeCount)
      {
        var g := memoryMap[n];
        CollectStep(memoryMap, n, MAX_RANGES - rangeCount);
        if g.usable {
          var range := Range(And(g.start + PAGE_SIZE - 1, WORD - PAGE_SIZE), And(g.end, WORD - PAGE_SIZE));
          WholePagesByMask(g);
          if range.end > range.start && rangeCount < MAX_RANGES {
            AppendRange(range);
          }
        }
      }
      CollectEnd(memoryMap, MAX_RANGES - rangeCount);
    }

    method AppendRange(range: Range)
      requires Shape() && rangeCount < MAX_RANGES && range.end > range.start && totalBytes == SumLen(Active())
      modifies this`rangeCount, this`totalBytes, freeRanges
      ensures Shape() && Active() == old(Active()) + [range] && totalBytes == SumLen(Active())
    {
      hide SumLen, Bytes;
      BytesConcat(Active(), [range]);
      BytesOne(range);
      freeRanges[rangeCount] := range;
      rangeCount := rangeCount + 1;
      totalBytes := totalBytes + (range.end - range.start);
      assert Active() == old(Active()) + [range];
    }

    /** Sort the active ranges by start, each key moving left past higher ones. */
    method InsertionSort()
      requires Shape()
      modifies freeRanges
      ensures Active() == SortRanges(old(Active()))
    {
      hide Insert, SortRanges;
      ghost var all := Active();
      SortOne(all);
      if rangeCount < 2 {
        return;
      }
      for i := 1 to rangeCount
        modifies freeRanges
        invariant freeRanges[..i] == SortRanges(all[..i])
        invariant forall k :: i <= k < rangeCount ==> freeRanges[k] == all[k]
      {
        SortRangesSorted(all[..i]);
        SortStep(all, i);
        InsertKey(i);
      }
      assert all[..rangeCount] == all;
    }

    /** Move the key at `i` left past every higher range of the sorted prefix. */
    method InsertKey(i: nat)
      requires Shape() && i < rangeCount && StartsSorted(freeRanges[..i])
      modifies freeRanges
      ensures freeRanges[..i + 1] == Insert(old(freeRanges[..i]), old(freeRanges[i]))
      ensures forall k :: i < k < freeRanges.Length ==> freeRanges[k] == old(freeRanges[k])
    {
      hide Insert, StartsSorted;
      ghost var s := freeRanges[..i];
      var key := freeRanges[i];
      var j := i;
      while j > 0 && freeRanges[j - 1].start > key.start
        modifies freeRanges
        invariant 0 <= j <= i
        invariant forall k :: 0 <= k < j ==> freeRanges[k] == s[k]
        invariant forall k :: j < k <= i ==> freeRanges[k] == s[k - 1]
        invariant forall k :: j <= k < i ==> s[k].start > key.start
        invariant forall k :: i < k < freeRanges.Length ==> freeRanges[k] == old(freeRanges[k])
      {
        freeRanges[j] := freeRanges[j - 1];
        j := j - 1;
      }
      freeRanges[j] := key;
      SortedBelow(s, j, key);
      InsertAt(s, key, j);
      ShiftedAround(freeRanges[..i + 1], s, key, j);
    }

    method RemoveRange(index: nat)
      requires Shape() && index < rangeCount
      modifies freeRanges, this`rangeCount
      ensures Shape() && rangeCount == old(rangeCount) - 1
      ensures Active() == old(Active())[..index] + old(Active())[index + 1..]
    {
      ghost var s := Active();
      for j := index to rangeCount - 1
        modifies freeRanges
        invariant forall k :: 0 <= k < index ==> freeRanges[k] == s[k]
        invariant forall k :: index <= k < j ==> freeRanges[k] == s[k + 1]
        invariant forall k :: j <= k < rangeCount ==> freeRanges[k] == s[k]
      {
        freeRanges[j] := freeRanges[j + 1];
      }
      rangeCount := rangeCount - 1;
      freeRanges[rangeCount] := Range(0, 0);
    }

    /** Returns whether the allocator panics because the array is full. */
    method InsertRangeSorted(range: Range) returns (panicked: bool)
      requires Shape()
      modifies freeRanges, this`rangeCount
      ensures Shape() && (panicked <==> old(rangeCount) >= MAX_RANGES)
      ensures panicked ==> Active() == old(Active())
      ensures !panicked ==> Active() == Insert(old(Active()), range)
    {
      if rangeCount >= MAX_RANGES {
        return true;
      }
      hide Insert;
      var pos := InsertionPoint(range);
      InsertAt(Active(), range, pos);
      PutAt(pos, range);
      return false;
    }

    /** The first range that starts higher. */
    method InsertionPoint(range: Range) returns (pos: nat)
      requires Shape()
      ensures pos <= rangeCount && forall k :: 0 <= k < pos ==> Active()[k].start <= range.start
      ensures pos < rangeCount ==> range.start < Active()[pos].start
    {
      for i := 0 to rangeCount
        invariant forall k :: 0 <= k < i ==> Active()[k].start <= range.start
      {
        if range.start < freeRanges[i].start {
          return i;
        }
      }
      return rangeCount;
    }

    method PutAt(pos: nat, range: Range)
      requires Shape() && pos <= rangeCount < MAX_RANGES
      modifies freeRanges, this`rangeCount
      ensures Shape() && Active() == old(Active()[..pos]) + [range] + old(Active()[pos..])
    {
      ghost var lo, hi := freeRanges[..pos], freeRanges[pos..rangeCount];
      assert lo == Active()[..pos] && hi == Active()[pos..];
      ShiftRight(pos);
      freeRanges[pos] := range;
      rangeCount := rangeCount + 1;
      assert freeRanges[..pos] == lo && freeRanges[pos + 1..rangeCount] == hi;
      assert Active() == freeRanges[..pos] + [range] + freeRanges[pos + 1..rangeCount];
    }

    /** Move the ranges from `pos` on one place to the right. */
    method ShiftRight(pos: nat)
      requires Shape() && pos <= rangeCount < MAX_RANGES
      modifies freeRanges
      ensures freeRanges[..pos] == old(freeRanges[..pos])
      ensures freeRanges[pos + 1..rangeCount + 1] == old(freeRanges[pos..rangeCount])
    {
      for j := rangeCount downto pos
        modifies freeRanges
        invariant forall k :: 0 <= k < j ==> freeRanges[k] == old(freeRanges[k])
        invariant forall k :: j < k <= rangeCount ==> freeRanges[k] == old(freeRanges[k - 1])
      {
        freeRanges[j + 1] := freeRanges[j];
      }
    }

    method CoalesceRanges()
      requires Shape()
      modifies freeRanges, this`rangeCount
      ensures Shape() && Active() == Coalesce(old(Active()))
    {
      hide Coalesce;
      if rangeCount < 2 {
        OneRange(Active());
        return;
      }
      ghost var all := Coalesce(Active());
      var i := 0;
      assert Active()[0..] == Active();
      while i < rangeCount - 1
        invariant Shape() && 0 <= i < rangeCount
        invariant all == Active()[..i] + Coalesce(Active()[i..])
        decreases rangeCount - i
      {
        ghost var s := Active();
        CoalesceStep(s, i);
        if freeRanges[i].end == freeRanges[i + 1].start {
          var merged := Range(freeRanges[i].start, freeRanges[i + 1].end);
          freeRanges[i] := merged;
          assert Active() == s[i := merged];
          RemoveRange(i + 1);
          assert Active()[..i] == s[..i] && Active()[i..] == [merged] + s[i + 2..];
        } else {
          i := i + 1;
        }
      }
      assert Active()[i..] == [Active()[i]];
      OneRange(Active()[i..]);
      assert Active() == Active()[..i] + Active()[i..];
    }

    method AllocateContiguousAligned(count: nat, align: nat, ghost memory: set<nat>) returns (r: Option<nat>)
      requires Valid(memory) && NoOverflow(View(), count, align)
      modifies this, freeRanges
      ensures Valid(memory)
      ensures (r, View()) == Allocate(old(View()), count, align)
    {
      hide BootInv, NoOverflow, AlignUp, Carve, FirstFit, ScanFits, BootRanges.Valid, Allocate;
      ghost var b := View();
      AllocateKeeps(b, memory, count, align);
      if count == 0 {
        return None;
      }
      var requiredSize := count * PAGE_SIZE;
      var fit := FindFit(requiredSize, align);
      if fit.None? {
        return None;
      }
      var i := fit.value;
      var alignedStart := AlignUp(freeRanges[i].start, align);
      ReplaceRange(i, alignedStart, requiredSize);
      allocatedBytes := allocatedBytes + requiredSize;
      return Some(alignedStart);
    }

    /** The scan of the allocation loop: the first range that fits the block, skipping those whose
        split would not fit the array. */
    method FindFit(size: nat, align: nat) returns (r: Option<nat>)
      requires Shape() && ScanFits(Active(), size, align, 0)
      ensures r == FirstFit(Active(), size, align, 0)
    {
      hide AlignUp, FirstFit, Pieces, ScanFits;
      for i := 0 to rangeCount
        invariant ScanFits(Active(), size, align, i)
        invariant FirstFit(Active(), size, align, 0) == FirstFit(Active(), size, align, i)
      {
        var range := freeRanges[i];
        assert range == Active()[i];
        FitStep(Active(), size, align, i);
        var alignedStart := AlignUp(range.start, align);
        if alignedStart >= range.start && alignedStart + size <= range.end {
          var hasBefore := alignedStart > range.start;
          var hasAfter := alignedStart + size < range.end;
          var needed := (if hasBefore then 1 else 0) + (if hasAfter then 1 else 0);
          PieceCount(range, alignedStart, size);
          if needed > 1 && rangeCount >= MAX_RANGES {
            continue;
          }
          return Some(i);
        }
      }
      FitEnd(Active(), size, align);
      return None;
    }

    /** Remove range `i` and put back what the block leaves of it. */
    method ReplaceRange(i: nat, a: nat, size: nat)
      requires Shape() && BootRanges.Valid(Active()) && i < rangeCount && size > 0
      requires freeRanges[i].start <= a && a + size <= freeRanges[i].end
      requires |Pieces(freeRanges[i], a, size)| <= 1 || rangeCount < MAX_RANGES
      modifies freeRanges, this`rangeCount
      ensures Shape() && Active() == Carve(old(Active()), i, a, size)
    {
      hide BootRanges.Valid, Insert, Carve;
      var range := freeRanges[i];
      PieceCount(range, a, size);
      CarveByInsert(Active(), i, a, size);
      RemoveRange(i);
      InsertPieces(range, a, a + size);
    }

    /** Put back what is left on either side; there is always room for it. */
    method InsertPieces(range: Range, a: nat, b: nat)
      requires Shape() && rangeCount + (if a > range.start then 1 else 0) + (if b < range.end then 1 else 0) <= MAX_RANGES
      modifies freeRanges, this`rangeCount
      ensures Shape()
      ensures var v := if a > range.start then Insert(old(Active()), Range(range.start, a)) else old(Active());
              Active() == if b < range.end then Insert(v, Range(b, range.end)) else v
    {
      if a > range.start {
        InsertMembers(Active(), Range(range.start, a));
        var _ := InsertRangeSorted(Range(range.start, a));
      }
      if b < range.end {
        var _ := InsertRangeSorted(Range(b, range.end));
      }
    }

    /** Returns whether the allocator panics. */
    method FreeContiguous(start: nat, count: nat, ghost memory: set<nat>) returns (panicked: bool)
      requires Valid(memory) && CanFree(View(), memory, start, count)
      modifies this, freeRanges
      ensures !panicked ==> Valid(memory)
      ensures Shape() && (if panicked then Free(old(View()), start, count) == Panic else Free(old(View()), start, count) == Done(View()))
    {
      if count == 0 {
        return false;
      }
      FreeCorrect(View(), memory, start, count);
      hide BootInv, CanFree, Insert, Coalesce, Bytes, Interval, Coalesced, SumLen, BootRanges.Valid;
      var end := start + count * PAGE_SIZE;
      allocatedBytes := SaturatingSub(allocatedBytes, count * PAGE_SIZE);
      panicked := InsertRangeSorted(Range(start, end));
      if !panicked {
        CoalesceRanges();
      }
    }

    function FreeMemory(ghost memory: set<nat>): (n: nat)
      requires Valid(memory)
      reads this, freeRanges
      ensures n == SumLen(Active()) == |Bytes(Active())|
    {
      SumLenCountsBytes(Active());
      totalBytes - allocatedBytes
    }
  }

  lemma PieceCount(r: Range, a: nat, size: nat)
    ensures |Pieces(r, a, size)| == (if a > r.start then 1 else 0) + (if a + size < r.end then 1 else 0)
  {}

  /** Allocation case by case, and the invariant it keeps. */
  lemma AllocateKeeps(b: Boot, memory: set<nat>, count: nat, align: nat)
    requires BootInv(b, memory) && NoOverflow(b, count, align)
    ensures (count > 0 ==> ScanFits(b.ranges, count * PAGE_SIZE, align, 0)) && Valid(b.ranges) && BootInv(Allocate(b, count, align).1, memory)
    ensures count == 0 ==> Allocate(b, count, align) == (None, b)
    ensures count > 0 ==>
              match FirstFit(b.ranges, count * PAGE_SIZE, align, 0)
              case None => Allocate(b, count, align) == (None, b)
              case Some(i) =>
                var a := AlignUp(b.ranges[i].start, align);
                && Serves(b.ranges, i, count * PAGE_SIZE, align)
                && Allocate(b, count, align) == (Some(a), Boot(Carve(b.ranges, i, a, count * PAGE_SIZE), b.taken + count * PAGE_SIZE, b.total))
  {
    hide AlignUp, Carve, Bytes, SumLen, Valid, ScanFits;
    AllocateCorrect(b, memory, count, align);
  }
}

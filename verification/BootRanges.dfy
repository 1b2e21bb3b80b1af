/** The boot-time range list on values: sorted ranges of free physical memory, aligned first fit,
    sorted insertion and coalescing, measured against the plain set of free bytes. */
module BootRanges {
  import opened Bits
  import opened Seqs

  const MAX_RANGES: nat := 256

  /** Physical memory from `start` up to but not including `end`. */
  datatype Range = Range(start: nat, end: nat)

  ghost predicate WithinRange(x: nat, a: nat, b: nat) {
    a <= x < b
  }

  ghost function Interval(a: nat, b: nat): set<nat> {
    set x: nat | x < b && WithinRange(x, a, b)
  }

  /** The set of bytes a list of ranges stands for. */
  ghost function Bytes(rs: seq<Range>): set<nat> {
    if rs == [] then {} else Interval(rs[0].start, rs[0].end) + Bytes(rs[1..])
  }

  function SumLen(rs: seq<Range>): int {
    if rs == [] then 0 else rs[0].end - rs[0].start + SumLen(rs[1..])
  }

  ghost predicate RangeOk(r: Range) {
    r.start < r.end && r.start % PAGE_SIZE == 0 && r.end % PAGE_SIZE == 0
  }

  /** Non-empty page-aligned ranges in ascending order that do not overlap. */
  ghost predicate Valid(rs: seq<Range>) {
    && (forall i :: 0 <= i < |rs| ==> RangeOk(rs[i]))
    && (forall i, j :: 0 <= i < j < |rs| ==> rs[i].end <= rs[j].start)
  }

  /** No two ranges touch. */
  ghost predicate Coalesced(rs: seq<Range>) {
    forall i, j :: 0 <= i < j < |rs| ==> rs[i].end < rs[j].start
  }

  // ----- bytes of lists

  lemma {:induction false} BytesIff(rs: seq<Range>, x: nat)
    ensures x in Bytes(rs) <==> exists i :: 0 <= i < |rs| && WithinRange(x, rs[i].start, rs[i].end)
  {
    if rs == [] {
    } else {
      BytesIff(rs[1..], x);
      if i :| 0 <= i < |rs| && WithinRange(x, rs[i].start, rs[i].end) {
        assert i > 0 ==> rs[i] == rs[1..][i - 1];
      }
      if i :| 0 <= i < |rs[1..]| && WithinRange(x, rs[1..][i].start, rs[1..][i].end) {
        assert rs[1..][i] == rs[i + 1];
      }
    }
  }

  lemma {:induction false} BytesConcat(rs: seq<Range>, ss: seq<Range>)
    ensures Bytes(rs + ss) == Bytes(rs) + Bytes(ss)
    ensures SumLen(rs + ss) == SumLen(rs) + SumLen(ss)
  {
    if rs == [] {
      assert rs + ss == ss;
    } else {
      BytesConcat(rs[1..], ss);
      assert (rs + ss)[1..] == rs[1..] + ss;
    }
  }

  lemma BytesOne(r: Range)
    ensures Bytes([r]) == Interval(r.start, r.end) && SumLen([r]) == r.end - r.start
  {
    assert [r][1..] == [];
  }

  lemma BytesSplit(rs: seq<Range>, i: nat)
    requires i < |rs|
    ensures Bytes(rs) == Bytes(rs[..i]) + Interval(rs[i].start, rs[i].end) + Bytes(rs[i + 1..])
    ensures SumLen(rs) == SumLen(rs[..i]) + (rs[i].end - rs[i].start) + SumLen(rs[i + 1..])
  {
    hide Bytes, SumLen, Interval;
    assert rs == rs[..i] + ([rs[i]] + rs[i + 1..]);
    BytesConcat(rs[..i], [rs[i]] + rs[i + 1..]);
    BytesConcat([rs[i]], rs[i + 1..]);
    BytesOne(rs[i]);
  }

  /** In a valid list the bytes of later ranges lie past the end of earlier ones. */
  lemma TailIsHigher(rs: seq<Range>, x: nat)
    requires Valid(rs) && rs != [] && x in Bytes(rs[1..])
    ensures x >= rs[0].end
  {
    BytesIff(rs[1..], x);
  }

  lemma {:induction false} IntervalSize(a: nat, b: nat)
    requires a <= b
    ensures |Interval(a, b)| == b - a
    decreases b - a
  {
    if a < b {
      IntervalSize(a, b - 1);
      assert Interval(a, b) == Interval(a, b - 1) + {b - 1};
    } else {
      assert Interval(a, b) == {};
    }
  }

  /** The lengths of the ranges add up to the number of free bytes. */
  lemma {:induction false} SumLenCountsBytes(rs: seq<Range>)
    requires Valid(rs)
    ensures SumLen(rs) == |Bytes(rs)|
  {
    if rs == [] {
    } else {
      SumLenCountsBytes(rs[1..]);
      IntervalSize(rs[0].start, rs[0].end);
      assert Interval(rs[0].start, rs[0].end) !! Bytes(rs[1..]) by {
        forall x | x in Bytes(rs[1..]) ensures x !in Interval(rs[0].start, rs[0].end) { TailIsHigher(rs, x); }
      }
    }
  }

  // ----- sorted insertion

  /** Insert before the first range that starts higher. */
  function Insert(rs: seq<Range>, r: Range): seq<Range> {
    if rs == [] then [r]
    else if r.start < rs[0].start then [r] + rs
    else [rs[0]] + Insert(rs[1..], r)
  }

  lemma {:induction false} InsertAt(rs: seq<Range>, r: Range, pos: nat)
    requires pos <= |rs| && (forall k :: 0 <= k < pos ==> rs[k].start <= r.start)
    requires pos < |rs| ==> r.start < rs[pos].start
    ensures Insert(rs, r) == rs[..pos] + [r] + rs[pos..]
    decreases pos
  {
    if pos > 0 {
      InsertAt(rs[1..], r, pos - 1);
      assert rs[..pos] + [r] + rs[pos..] == [rs[0]] + (rs[1..][..pos - 1] + [r] + rs[1..][pos - 1..]);
    } else {
      assert rs[..0] + [r] + rs[0..] == [r] + rs;
    }
  }

  lemma {:induction false} InsertMembers(rs: seq<Range>, r: Range)
    ensures forall s :: s in Insert(rs, r) <==> s in rs || s == r
    ensures |Insert(rs, r)| == |rs| + 1
  {
    if rs == [] || r.start < rs[0].start {
    } else {
      InsertMembers(rs[1..], r);
      assert rs == [rs[0]] + rs[1..];
    }
  }

  ghost predicate Disjoint(r: Range, s: Range) {
    r.end <= s.start || s.end <= r.start
  }

  /** Inserting a range that overlaps no other keeps the list valid and adds exactly its bytes. */
  lemma {:induction false} InsertCorrect(rs: seq<Range>, r: Range)
    requires Valid(rs) && RangeOk(r) && forall i :: 0 <= i < |rs| ==> Disjoint(r, rs[i])
    ensures Valid(Insert(rs, r))
    ensures Bytes(Insert(rs, r)) == Bytes(rs) + Interval(r.start, r.end)
    ensures SumLen(Insert(rs, r)) == SumLen(rs) + (r.end - r.start)
  {
    if rs == [] {
      BytesOne(r);
    } else if r.start < rs[0].start {
      assert ([r] + rs)[1..] == rs;
    } else {
      var t := Insert(rs[1..], r);
      InsertCorrect(rs[1..], r);
      InsertMembers(rs[1..], r);
      assert ([rs[0]] + t)[1..] == t;
      forall i | 0 <= i < |t| ensures rs[0].end <= t[i].start {
        assert t[i] in t;
      }
      ConsValid(rs[0], t);
    }
  }

  lemma ConsValid(r: Range, t: seq<Range>)
    requires RangeOk(r) && Valid(t) && forall i :: 0 <= i < |t| ==> r.end <= t[i].start
    ensures Valid([r] + t)
  {
    var s := [r] + t;
    assert forall i :: 0 < i < |s| ==> s[i] == t[i - 1];
  }

  // ----- coalescing

  /** Merge neighbours that touch, from the left. */
  function Coalesce(rs: seq<Range>): seq<Range>
    decreases |rs|
  {
    if |rs| < 2 then rs
    else if rs[0].end == rs[1].start then Coalesce([Range(rs[0].start, rs[1].end)] + rs[2..])
    else [rs[0]] + Coalesce(rs[1..])
  }

  /** Coalescing keeps the free bytes and leaves no touching ranges. */
  lemma {:induction false} CoalesceCorrect(rs: seq<Range>)
    requires Valid(rs)
    ensures Valid(Coalesce(rs)) && Coalesced(Coalesce(rs)) && |Coalesce(rs)| <= |rs|
    ensures Bytes(Coalesce(rs)) == Bytes(rs) && SumLen(Coalesce(rs)) == SumLen(rs)
    ensures rs != [] ==> Coalesce(rs) != [] && Coalesce(rs)[0].start == rs[0].start
    decreases |rs|
  {
    if |rs| < 2 {
    } else {
      if rs[0].end == rs[1].start {
        MergeTwo(rs);
        CoalesceCorrect([Range(rs[0].start, rs[1].end)] + rs[2..]);
      } else {
        CoalesceCorrect(rs[1..]);
        ConsCoalesced(rs, Coalesce(rs[1..]));
      }
    }
  }

  /** A range put before a coalesced list that starts higher, without touching it. */
  lemma ConsCoalesced(rs: seq<Range>, t: seq<Range>)
    requires Valid(rs) && |rs| >= 2 && rs[0].end != rs[1].start && Valid(t) && Coalesced(t) && t != [] && t[0].start == rs[1].start
    requires Bytes(t) == Bytes(rs[1..]) && SumLen(t) == SumLen(rs[1..])
    ensures var s := [rs[0]] + t;
            Valid(s) && Coalesced(s) && Bytes(s) == Bytes(rs) && SumLen(s) == SumLen(rs)
  {
    hide Bytes, SumLen, Interval;
    forall i | 0 <= i < |t| ensures rs[0].end < t[i].start { assert RangeOk(t[0]); }
    ConsValid(rs[0], t);
    ConsBytes(rs[0], t);
    ConsBytes(rs[0], rs[1..]);
    assert [rs[0]] + rs[1..] == rs;
  }

  lemma ConsBytes(r: Range, t: seq<Range>)
    ensures Bytes([r] + t) == Interval(r.start, r.end) + Bytes(t) && SumLen([r] + t) == r.end - r.start + SumLen(t)
  {
    assert ([r] + t)[1..] == t;
  }

  /** Merging makes no new starts. */
  lemma {:induction false} CoalesceStarts(rs: seq<Range>, k: nat)
    requires k < |Coalesce(rs)|
    ensures exists j :: 0 <= j < |rs| && rs[j].start == Coalesce(rs)[k].start
    decreases |rs|
  {
    if |rs| < 2 {
    } else if rs[0].end == rs[1].start {
      var ss := [Range(rs[0].start, rs[1].end)] + rs[2..];
      CoalesceStarts(ss, k);
      var j :| 0 <= j < |ss| && ss[j].start == Coalesce(rs)[k].start;
      assert rs[if j == 0 then 0 else j + 1].start == ss[j].start;
    } else if k > 0 {
      CoalesceStarts(rs[1..], k - 1);
      var j :| 0 <= j < |rs[1..]| && rs[1..][j].start == Coalesce(rs)[k].start;
      assert rs[j + 1].start == rs[1..][j].start;
    }
  }

  lemma MergeTwo(rs: seq<Range>)
    requires Valid(rs) && |rs| >= 2 && rs[0].end == rs[1].start
    ensures var s := [Range(rs[0].start, rs[1].end)] + rs[2..];
            Valid(s) && Bytes(s) == Bytes(rs) && SumLen(s) == SumLen(rs)
  {
    var m := Range(rs[0].start, rs[1].end);
    var s := [m] + rs[2..];
    assert forall i :: 0 < i < |s| ==> s[i] == rs[i + 1];
    assert s[1..] == rs[2..] && rs[1..][1..] == rs[2..];
    assert Interval(m.start, m.end) == Interval(rs[0].start, rs[0].end) + Interval(rs[1].start, rs[1].end);
  }

  lemma LowestByte(rs: seq<Range>)
    requires Valid(rs) && rs != []
    ensures rs[0].start in Bytes(rs) && forall x :: x in Bytes(rs) ==> rs[0].start <= x
  {
    assert WithinRange(rs[0].start, rs[0].start, rs[0].end);
    forall x | x in Bytes(rs) ensures rs[0].start <= x { BytesIff(rs, x); }
  }

  /** Canonical form: a coalesced list is determined by its set of bytes. */
  lemma {:induction false} CoalescedIsUnique(rs: seq<Range>, ss: seq<Range>)
    requires Valid(rs) && Valid(ss) && Coalesced(rs) && Coalesced(ss) && Bytes(rs) == Bytes(ss)
    ensures rs == ss
  {
    hide Bytes;
    if rs == [] {
      if ss != [] { LowestByte(ss); NoBytes(); }
    } else {
      LowestByte(rs);
      if ss != [] {
        LowestByte(ss);
        EndAgrees(rs, ss);
        EndAgrees(ss, rs);
        SameTail(rs, ss);
        CoalescedIsUnique(rs[1..], ss[1..]);
        assert rs == [rs[0]] + rs[1..] && ss == [ss[0]] + ss[1..];
      } else {
        NoBytes();
      }
    }
  }

  lemma NoBytes()
    ensures Bytes([]) == {}
  {}

  lemma EndAgrees(rs: seq<Range>, ss: seq<Range>)
    requires Valid(rs) && Valid(ss) && Coalesced(rs) && rs != [] && ss != [] && Bytes(rs) == Bytes(ss)
    requires rs[0].start == ss[0].start
    ensures ss[0].end <= rs[0].end
  {
    if rs[0].end < ss[0].end {
      var x := rs[0].end;
      assert WithinRange(x, ss[0].start, ss[0].end);
      BytesIff(ss, x);
      BytesIff(rs, x);
    }
  }

  lemma SameTail(rs: seq<Range>, ss: seq<Range>)
    requires Valid(rs) && Valid(ss) && rs != [] && ss != [] && Bytes(rs) == Bytes(ss) && rs[0] == ss[0]
    ensures Bytes(rs[1..]) == Bytes(ss[1..])
  {
    forall x ensures x in Bytes(rs[1..]) <==> x in Bytes(ss[1..]) {
      if x in Bytes(rs[1..]) { TailIsHigher(rs, x); }
      if x in Bytes(ss[1..]) { TailIsHigher(ss, x); }
    }
  }

  /** In a coalesced list a run of free bytes lies inside one range. */
  lemma {:induction false} RunInOneRange(rs: seq<Range>, a: nat, b: nat)
    requires Valid(rs) && Coalesced(rs) && a < b && Interval(a, b) <= Bytes(rs)
    ensures exists i :: 0 <= i < |rs| && rs[i].start <= a && b <= rs[i].end
    decreases b - a
  {
    assert WithinRange(b - 1, a, b);
    BytesIff(rs, b - 1);
    var j :| 0 <= j < |rs| && WithinRange(b - 1, rs[j].start, rs[j].end);
    if b - a == 1 {
    } else {
      assert Interval(a, b - 1) <= Interval(a, b);
      RunInOneRange(rs, a, b - 1);
      var i :| 0 <= i < |rs| && rs[i].start <= a && b - 1 <= rs[i].end;
      assert i == j;
    }
  }

  // ----- aligned first fit

  /** `(x + align - 1) & !(align - 1)` on 64-bit words. */
  function AlignUp(x: nat, align: nat): nat
    requires 1 <= align <= WORD && x + align - 1 < WORD
  {
    And(x + align - 1, WORD - align)
  }

  /** For a power of two that is the least multiple of the alignment not below `x`. */
  lemma AlignUpCorrect(x: nat, k: nat)
    requires k <= 64 && Pow2(k) <= WORD && x + Pow2(k) - 1 < WORD
    ensures x <= AlignUp(x, Pow2(k)) < x + Pow2(k)
    ensures AlignUp(x, Pow2(k)) % Pow2(k) == 0
    ensures forall a: nat :: a % Pow2(k) == 0 && a >= x ==> a >= AlignUp(x, Pow2(k))
  {
    hide Pow2, And, AlignDown, Shr;
    var n := Pow2(k);
    var y := x + n - 1;
    WordIsPow2();
    MaskClearsLowBits(y, k, 64);
    AlignDownIsRounding(y, k);
    var q := Shr(y, k);
    DivUnique(n * q, n, q, 0);
    forall a: nat | a % n == 0 && a >= x ensures a >= n * q {
      MultipleAbove(a, n, q);
    }
  }

  lemma MultipleAbove(a: nat, n: nat, q: nat)
    requires n > 0 && a % n == 0 && a + n > n * q
    ensures a >= n * q
  {
    var p := a / n;
    assert a == n * p;
    if p < q { MulStep(n, p, q); }
  }

  lemma MulStep(n: nat, p: nat, q: nat)
    requires p < q
    ensures n * p + n <= n * q
  {
    assert n * (p + 1) <= n * q;
  }

  /** The pieces of `r` left around the block at `a`. */
  function Pieces(r: Range, a: nat, size: nat): seq<Range> {
    (if a > r.start then [Range(r.start, a)] else []) + (if a + size < r.end then [Range(a + size, r.end)] else [])
  }

  /** The sums the scan forms for a range that starts at `start` stay in a word. */
  predicate SumsFit(start: nat, size: nat, align: nat) {
    && 1 <= align <= WORD && start + align - 1 < WORD
    && (AlignUp(start, align) >= start ==> AlignUp(start, align) + size < WORD)
  }

  predicate Fits(r: Range, size: nat, align: nat)
    requires SumsFit(r.start, size, align)
  {
    AlignUp(r.start, align) >= r.start && AlignUp(r.start, align) + size <= r.end
  }

  /** Range `i` can serve the request: the block fits, and a split has room for one more range. */
  predicate Serves(rs: seq<Range>, i: nat, size: nat, align: nat) {
    && i < |rs| && SumsFit(rs[i].start, size, align) && Fits(rs[i], size, align)
    && !(|Pieces(rs[i], AlignUp(rs[i].start, align), size)| > 1 && |rs| >= MAX_RANGES)
  }

  /** No sum overflows in a scan from range `i`, which ends at the first range that serves. */
  predicate ScanFits(rs: seq<Range>, size: nat, align: nat, i: nat)
    decreases |rs| - i
  {
    i >= |rs| || (SumsFit(rs[i].start, size, align) && (Serves(rs, i, size, align) || ScanFits(rs, size, align, i + 1)))
  }

  /** The first range from `i` on that serves the request. */
  function FirstFit(rs: seq<Range>, size: nat, align: nat, i: nat): (r: Option<nat>)
    requires i <= |rs| && ScanFits(rs, size, align, i)
    ensures r.Some? ==> i <= r.value < |rs| && Serves(rs, r.value, size, align)
    ensures forall k :: i <= k < (if r.Some? then r.value else |rs|) ==> !Serves(rs, k, size, align)
    decreases |rs| - i
  {
    if i == |rs| then None
    else if Serves(rs, i, size, align) then Some(i)
    else FirstFit(rs, size, align, i + 1)
  }

  /** The scan reaches every range that no earlier one forestalls. */
  lemma {:induction false} ScanReaches(rs: seq<Range>, size: nat, align: nat, i: nat, k: nat)
    requires ScanFits(rs, size, align, i) && i <= k < |rs|
    requires forall j :: i <= j < k ==> !Serves(rs, j, size, align)
    ensures SumsFit(rs[k].start, size, align)
    decreases k - i
  {
    if i == k {
    } else {
      ScanReaches(rs, size, align, i + 1, k);
    }
  }

  lemma {:induction false} AllSumsScan(rs: seq<Range>, size: nat, align: nat, i: nat)
    requires forall k :: 0 <= k < |rs| ==> SumsFit(rs[k].start, size, align)
    ensures ScanFits(rs, size, align, i)
    decreases |rs| - i
  {
    hide SumsFit, Serves;
    if i >= |rs| {
    } else {
      AllSumsScan(rs, size, align, i + 1);
    }
  }

  /** `rs` with range `i` replaced by what the block at `a` leaves of it. */
  function Carve(rs: seq<Range>, i: nat, a: nat, size: nat): seq<Range>
    requires i < |rs|
  {
    rs[..i] + Pieces(rs[i], a, size) + rs[i + 1..]
  }

  /** Carving a page-aligned block out of a range removes exactly its bytes and keeps the list
      valid, and coalesced if it was. */
  lemma CarveCorrect(rs: seq<Range>, i: nat, a: nat, size: nat)
    requires Valid(rs) && i < |rs| && size > 0 && size % PAGE_SIZE == 0 && a % PAGE_SIZE == 0
    requires rs[i].start <= a && a + size <= rs[i].end
    ensures Valid(Carve(rs, i, a, size))
    ensures Interval(a, a + size) <= Bytes(rs)
    ensures Bytes(Carve(rs, i, a, size)) == Bytes(rs) - Interval(a, a + size)
    ensures SumLen(Carve(rs, i, a, size)) == SumLen(rs) - size
    ensures Coalesced(rs) ==> Coalesced(Carve(rs, i, a, size))
  {
    CarveValid(rs, i, a, size);
    CarveBytes(rs, i, a, size);
  }

  lemma CarveValid(rs: seq<Range>, i: nat, a: nat, size: nat)
    requires Valid(rs) && i < |rs| && size > 0 && size % PAGE_SIZE == 0 && a % PAGE_SIZE == 0
    requires rs[i].start <= a && a + size <= rs[i].end
    ensures Valid(Carve(rs, i, a, size))
    ensures Coalesced(rs) ==> Coalesced(Carve(rs, i, a, size))
  {
    hide Pieces, RangeOk;
    var r := rs[i];
    var ps := Pieces(r, a, size);
    assert RangeOk(r);
    PiecesValid(r, a, size);
    var t := rs[..i] + ps;
    ConcatValid(rs[..i], ps);
    forall k | 0 <= k < |t| ensures t[k].end <= r.end {
      if k < i { assert t[k] == rs[k] && rs[k].end <= r.start; } else { assert t[k] == ps[k - i]; }
    }
    assert Coalesced(rs) ==> Coalesced(t);
    ConcatValid(t, rs[i + 1..]);
  }

  lemma PiecesValid(r: Range, a: nat, size: nat)
    requires RangeOk(r) && size > 0 && size % PAGE_SIZE == 0 && a % PAGE_SIZE == 0
    requires r.start <= a && a + size <= r.end
    ensures r.start < r.end && Valid(Pieces(r, a, size)) && Coalesced(Pieces(r, a, size))
    ensures forall k :: 0 <= k < |Pieces(r, a, size)| ==> r.start <= Pieces(r, a, size)[k].start && Pieces(r, a, size)[k].end <= r.end
  {}

  lemma ConcatValid(rs: seq<Range>, ss: seq<Range>)
    requires Valid(rs) && Valid(ss) && forall i, j :: 0 <= i < |rs| && 0 <= j < |ss| ==> rs[i].end <= ss[j].start
    ensures Valid(rs + ss)
    ensures Coalesced(rs) && Coalesced(ss) && (forall i, j :: 0 <= i < |rs| && 0 <= j < |ss| ==> rs[i].end < ss[j].start) ==> Coalesced(rs + ss)
  {}

  lemma CarveBytes(rs: seq<Range>, i: nat, a: nat, size: nat)
    requires Valid(rs) && i < |rs| && size > 0
    requires rs[i].start <= a && a + size <= rs[i].end
    ensures Interval(a, a + size) <= Bytes(rs)
    ensures Bytes(Carve(rs, i, a, size)) == Bytes(rs) - Interval(a, a + size)
    ensures SumLen(Carve(rs, i, a, size)) == SumLen(rs) - size
  {
    hide Bytes, SumLen, Interval, Pieces;
    var r := rs[i];
    var ps := Pieces(r, a, size);
    BytesSplit(rs, i);
    BytesConcat(rs[..i] + ps, rs[i + 1..]);
    BytesConcat(rs[..i], ps);
    PieceBytes(r, a, size);
    OthersOutside(rs, i, a, size);
  }

  lemma PieceBytes(r: Range, a: nat, size: nat)
    requires r.start <= a && size > 0 && a + size <= r.end
    ensures Bytes(Pieces(r, a, size)) == Interval(r.start, r.end) - Interval(a, a + size)
    ensures Interval(a, a + size) <= Interval(r.start, r.end)
    ensures SumLen(Pieces(r, a, size)) == r.end - r.start - size
  {
    var lo := if a > r.start then [Range(r.start, a)] else [];
    var hi := if a + size < r.end then [Range(a + size, r.end)] else [];
    BytesConcat(lo, hi);
    BytesOne(Range(r.start, a));
    BytesOne(Range(a + size, r.end));
  }

  lemma OthersOutside(rs: seq<Range>, i: nat, a: nat, size: nat)
    requires Valid(rs) && i < |rs| && rs[i].start <= a && a + size <= rs[i].end
    ensures Bytes(rs[..i]) !! Interval(a, a + size) && Bytes(rs[i + 1..]) !! Interval(a, a + size)
  {
    forall x | x in Interval(a, a + size) ensures x !in Bytes(rs[..i]) && x !in Bytes(rs[i + 1..]) {
      BytesIff(rs[..i], x);
      BytesIff(rs[i + 1..], x);
    }
  }
}

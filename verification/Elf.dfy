/** The ELF loader: program headers read from the file's bytes, pages mapped, zeroed and filled. */
module Elf {
  import opened Bits
  import opened Seqs

  type Byte = x: nat | x < 256

  const HEADER_SIZE: nat := 64
  const PROGRAM_HEADER_SIZE: nat := 56
  const PT_LOAD: nat := 1
  const USER_STACK_TOP: nat := 0x7_FFFF_F000
  const USER_STACK_PAGES: nat := 16
  const USER_STACK_SIZE: nat := USER_STACK_PAGES * PAGE_SIZE

  // ----- the file

  /** A little-endian field of `n` bytes. */
  function Field(data: seq<Byte>, at: nat, n: nat): nat
    requires at + n <= |data|
    decreases n
  {
    if n == 0 then 0 else data[at] + 256 * Field(data, at + 1, n - 1)
  }

  datatype Header = Header(entry: nat, phoff: nat, phentsize: nat, phnum: nat)

  datatype ProgramHeader = ProgramHeader(kind: nat, offset: nat, vaddr: nat, filesz: nat, memsz: nat)

  function ReadHeader(data: seq<Byte>): Header
    requires |data| >= HEADER_SIZE
  {
    Header(Field(data, 24, 8), Field(data, 32, 8), Field(data, 54, 2), Field(data, 56, 2))
  }

  predicate HasMagic(data: seq<Byte>)
    requires |data| >= HEADER_SIZE
  {
    data[0..4] == [0x7F, 0x45, 0x4C, 0x46]
  }

  predicate Is64Bit(data: seq<Byte>)
    requires |data| >= HEADER_SIZE
  {
    data[4] == 2
  }

  function ProgramHeaderStart(h: Header, i: nat): nat {
    h.phoff + i * h.phentsize
  }

  function ReadProgramHeader(data: seq<Byte>, at: nat): ProgramHeader
    requires at + PROGRAM_HEADER_SIZE <= |data|
  {
    ProgramHeader(Field(data, at, 4), Field(data, at + 8, 8), Field(data, at + 16, 8), Field(data, at + 32, 8), Field(data, at + 40, 8))
  }

  /** The program header at index `i`, where the file holds it. */
  function HeaderAt(data: seq<Byte>, i: nat): Option<ProgramHeader>
    requires |data| >= HEADER_SIZE
  {
    var at := ProgramHeaderStart(ReadHeader(data), i);
    if at + PROGRAM_HEADER_SIZE > |data| then None else Some(ReadProgramHeader(data, at))
  }

  /** The `i`-th program header exists and is loadable. */
  predicate Loadable(data: seq<Byte>, i: nat)
    requires |data| >= HEADER_SIZE
  {
    HeaderAt(data, i).Some? && HeaderAt(data, i).value.kind == PT_LOAD
  }

  // ----- the file as its format lays it out

  /** The `n` bytes of a little-endian word. */
  function LittleEndian(x: nat, n: nat): (s: seq<Byte>)
    ensures |s| == n
  {
    if n == 0 then [] else [x % 256] + LittleEndian(x / 256, n - 1)
  }

  /** Words of given widths, one after another. */
  datatype Word = Word(value: nat, width: nat)

  function Encode(ws: seq<Word>): seq<Byte> {
    if ws == [] then [] else LittleEndian(ws[0].value, ws[0].width) + Encode(ws[1..])
  }

  function Offset(ws: seq<Word>, k: nat): nat
    requires k <= |ws|
  {
    if k == 0 then 0 else ws[0].width + Offset(ws[1..], k - 1)
  }

  ghost predicate WordsFit(ws: seq<Word>) {
    forall k :: 0 <= k < |ws| ==> ws[k].value < Pow2(8 * ws[k].width)
  }

  lemma {:induction false} EncodeLength(ws: seq<Word>)
    ensures |Encode(ws)| == Offset(ws, |ws|)
  {
    if ws == [] {
    } else {
      EncodeLength(ws[1..]);
    }
  }

  /** Reading a field looks at its own bytes only. */
  lemma {:induction false} FieldIsLocal(data: seq<Byte>, at: nat, n: nat, file: seq<Byte>, pos: nat)
    requires at + n <= |data| && pos + n <= |file| && data[at..at + n] == file[pos..pos + n]
    ensures Field(data, at, n) == Field(file, pos, n)
    decreases n
  {
    if n == 0 {
    } else {
      var s, t := data[at..at + n], file[pos..pos + n];
      assert data[at] == s[0] == t[0] == file[pos];
      assert data[at + 1..at + n] == s[1..] == t[1..] == file[pos + 1..pos + n];
      FieldIsLocal(data, at + 1, n - 1, file, pos + 1);
    }
  }

  lemma {:induction false} FieldOfWord(x: nat, n: nat)
    requires x < Pow2(8 * n)
    ensures Field(LittleEndian(x, n), 0, n) == x
  {
    if n == 0 {
    } else {
      var s, t := LittleEndian(x, n), LittleEndian(x / 256, n - 1);
      assert s[1..n] == t[0..n - 1];
      FieldIsLocal(s, 1, n - 1, t, 0);
      EightMoreBits(n - 1);
      FieldOfWord(x / 256, n - 1);
    }
  }

  lemma EightMoreBits(n: nat)
    ensures Pow2(8 * (n + 1)) == 256 * Pow2(8 * n)
  {
    hide Pow2;
    Pow2Add(8, 8 * n);
    EighthPower();
  }

  /** Word `k` of an encoding is read back, wherever the encoding lies in a file. */
  lemma {:induction false} FieldOfEncoding(data: seq<Byte>, at: nat, ws: seq<Word>, k: nat)
    requires WordsFit(ws) && k < |ws| && at + |Encode(ws)| <= |data| && data[at..at + |Encode(ws)|] == Encode(ws)
    ensures at + Offset(ws, k) + ws[k].width <= |data|
    ensures Field(data, at + Offset(ws, k), ws[k].width) == ws[k].value
    decreases k
  {
    hide Pow2, LittleEndian;
    var w, code := ws[0].width, Encode(ws);
    var head, rest := LittleEndian(ws[0].value, w), Encode(ws[1..]);
    if k == 0 {
      assert data[at..at + w] == code[..w] == head[0..w];
      FieldIsLocal(data, at, w, head, 0);
      FieldOfWord(ws[0].value, w);
    } else {
      assert data[at + w..at + w + |rest|] == code[w..] == rest;
      FieldOfEncoding(data, at + w, ws[1..], k - 1);
    }
  }

  /** A program header as the format lays it out, with the fields the loader does not look at. */
  datatype FullProgramHeader = FullProgramHeader(ph: ProgramHeader, flags: nat, paddr: nat, align: nat)

  function ProgramHeaderWords(f: FullProgramHeader): seq<Word> {
    [Word(f.ph.kind, 4), Word(f.flags, 4), Word(f.ph.offset, 8), Word(f.ph.vaddr, 8),
     Word(f.paddr, 8), Word(f.ph.filesz, 8), Word(f.ph.memsz, 8), Word(f.align, 8)]
  }

  /** The file header as the format lays it out. */
  datatype FullHeader = FullHeader(ident: seq<Byte>, kind: nat, machine: nat, version: nat, h: Header, shoff: nat,
                                   flags: nat, ehsize: nat, shentsize: nat, shnum: nat, shstrndx: nat)

  function HeaderWords(f: FullHeader): seq<Word> {
    [Word(f.kind, 2), Word(f.machine, 2), Word(f.version, 4), Word(f.h.entry, 8), Word(f.h.phoff, 8), Word(f.shoff, 8),
     Word(f.flags, 4), Word(f.ehsize, 2), Word(f.h.phentsize, 2), Word(f.h.phnum, 2), Word(f.shentsize, 2), Word(f.shnum, 2),
     Word(f.shstrndx, 2)]
  }

  function EncodeHeader(f: FullHeader): seq<Byte> {
    f.ident + Encode(HeaderWords(f))
  }

  ghost predicate HeaderFits(f: FullHeader) {
    |f.ident| == 16 && WordsFit(HeaderWords(f))
  }

  lemma OffsetStep(ws: seq<Word>, k: nat)
    requires k < |ws|
    ensures Offset(ws, k + 1) == Offset(ws, k) + ws[k].width
    decreases k
  {
    if k == 0 {
    } else {
      OffsetStep(ws[1..], k - 1);
    }
  }

  /** A program header is read as written, wherever it lies in the file. */
  lemma ProgramHeaderRoundTrip(data: seq<Byte>, at: nat, f: FullProgramHeader)
    requires WordsFit(ProgramHeaderWords(f)) && at + PROGRAM_HEADER_SIZE <= |data|
    ensures |Encode(ProgramHeaderWords(f))| == PROGRAM_HEADER_SIZE
    ensures data[at..at + PROGRAM_HEADER_SIZE] == Encode(ProgramHeaderWords(f)) ==> ReadProgramHeader(data, at) == f.ph
  {
    hide Encode, Offset, Field, WordsFit;
    var ws := ProgramHeaderWords(f);
    ProgramHeaderOffsets(f);
    EncodeLength(ws);
    if data[at..at + PROGRAM_HEADER_SIZE] == Encode(ws) {
      FieldOfEncoding(data, at, ws, 0);
      FieldOfEncoding(data, at, ws, 2);
      FieldOfEncoding(data, at, ws, 3);
      FieldOfEncoding(data, at, ws, 5);
      FieldOfEncoding(data, at, ws, 6);
    }
  }

  lemma ProgramHeaderOffsets(f: FullProgramHeader)
    ensures var ws := ProgramHeaderWords(f);
            && Offset(ws, 0) == 0 && Offset(ws, 2) == 8 && Offset(ws, 3) == 16
            && Offset(ws, 5) == 32 && Offset(ws, 6) == 40 && Offset(ws, 8) == PROGRAM_HEADER_SIZE
  {
    hide Offset;
    var ws := ProgramHeaderWords(f);
    OffsetZero(ws);
    OffsetStep(ws, 0);
    OffsetStep(ws, 1);
    OffsetStep(ws, 2);
    OffsetStep(ws, 3);
    OffsetStep(ws, 4);
    OffsetStep(ws, 5);
    OffsetStep(ws, 6);
    OffsetStep(ws, 7);
  }

  lemma OffsetZero(ws: seq<Word>)
    ensures Offset(ws, 0) == 0
  {}

  lemma HeaderOffsets(f: FullHeader)
    ensures var ws := HeaderWords(f);
            Offset(ws, 3) == 8 && Offset(ws, 4) == 16 && Offset(ws, 8) == 38 && Offset(ws, 9) == 40 && Offset(ws, 13) == 48
  {
    hide Offset;
    var ws := HeaderWords(f);
    OffsetZero(ws);
    OffsetStep(ws, 0);
    OffsetStep(ws, 1);
    OffsetStep(ws, 2);
    OffsetStep(ws, 3);
    OffsetStep(ws, 4);
    OffsetStep(ws, 5);
    OffsetStep(ws, 6);
    OffsetStep(ws, 7);
    OffsetStep(ws, 8);
    OffsetStep(ws, 9);
    OffsetStep(ws, 10);
    OffsetStep(ws, 11);
    OffsetStep(ws, 12);
  }

  /** The file header is read as written; the magic and the class come from its identification. */
  lemma HeaderRoundTrip(data: seq<Byte>, f: FullHeader)
    requires HeaderFits(f) && |data| >= HEADER_SIZE
    ensures |EncodeHeader(f)| == HEADER_SIZE
    ensures data[..HEADER_SIZE] == EncodeHeader(f) ==>
              && ReadHeader(data) == f.h
              && (HasMagic(data) <==> f.ident[0] == 0x7F && f.ident[1] == 0x45 && f.ident[2] == 0x4C && f.ident[3] == 0x46)
              && (Is64Bit(data) <==> f.ident[4] == 2)
  {
    hide Encode, Offset, Field, WordsFit;
    var ws := HeaderWords(f);
    HeaderOffsets(f);
    EncodeLength(ws);
    if data[..HEADER_SIZE] == EncodeHeader(f) {
      var code := EncodeHeader(f);
      assert data[16..16 + |Encode(ws)|] == code[16..] == Encode(ws);
      FieldOfEncoding(data, 16, ws, 3);
      FieldOfEncoding(data, 16, ws, 4);
      FieldOfEncoding(data, 16, ws, 8);
      FieldOfEncoding(data, 16, ws, 9);
      assert forall k :: 0 <= k < 16 ==> data[k] == code[k] == f.ident[k];
      assert data[0..4] == [data[0], data[1], data[2], data[3]];
    }
  }

  /** `data` is a file with this header and these program headers, anything in between. */
  ghost predicate FileOf(data: seq<Byte>, f: FullHeader, fs: seq<FullProgramHeader>) {
    && HeaderFits(f) && f.h.phnum == |fs| && |data| >= HEADER_SIZE && data[..HEADER_SIZE] == EncodeHeader(f)
    && forall i: nat :: i < |fs| ==> HeaderLiesAt(data, TableEntry(f.h, i), fs[i])
  }

  /** Where entry `i` of a table at `phoff` with entries of `phentsize` bytes begins. */
  function TableEntry(h: Header, i: nat): nat {
    if i == 0 then h.phoff else TableEntry(h, i - 1) + h.phentsize
  }

  lemma {:induction false} TableEntryStart(h: Header, i: nat)
    ensures TableEntry(h, i) == ProgramHeaderStart(h, i)
  {
    if i == 0 {
    } else {
      TableEntryStart(h, i - 1);
      assert i * h.phentsize == (i - 1) * h.phentsize + h.phentsize;
    }
  }

  ghost predicate HeaderLiesAt(data: seq<Byte>, at: nat, f: FullProgramHeader) {
    && WordsFit(ProgramHeaderWords(f)) && at + PROGRAM_HEADER_SIZE <= |data|
    && data[at..at + PROGRAM_HEADER_SIZE] == Encode(ProgramHeaderWords(f))
  }

  /** The loader sees the file it is given: its entry point and number of headers, each program header
      in turn, and as loadable exactly those of type 1. */
  lemma FileIsRead(data: seq<Byte>, f: FullHeader, fs: seq<FullProgramHeader>, i: nat)
    requires FileOf(data, f, fs) && i < |fs|
    ensures ReadHeader(data) == f.h && HeaderAt(data, i) == Some(fs[i].ph)
    ensures Loadable(data, i) <==> fs[i].ph.kind == 1
  {
    hide HeaderFits, EncodeHeader, ReadProgramHeader, ReadHeader, WordsFit, Encode, HasMagic, Is64Bit, TableEntry, ProgramHeaderStart;
    HeaderRoundTrip(data, f);
    var at := TableEntry(f.h, i);
    TableEntryStart(f.h, i);
    assert HeaderLiesAt(data, at, fs[i]);
    ProgramHeaderRoundTrip(data, at, fs[i]);
  }

  // ----- the image a segment must have

  function PageDown(x: nat): (p: nat)
    ensures p <= x < p + PAGE_SIZE && p % PAGE_SIZE == 0
  {
    x / PAGE_SIZE * PAGE_SIZE
  }

  function FirstPage(ph: ProgramHeader): nat {
    PageDown(ph.vaddr)
  }

  function EndPage(ph: ProgramHeader): nat {
    PageDown(ph.vaddr + ph.memsz + 0xFFF)
  }

  ghost predicate SegmentPage(ph: ProgramHeader, p: nat) {
    p % PAGE_SIZE == 0 && FirstPage(ph) <= p < EndPage(ph)
  }

  ghost predicate StackPage(p: nat) {
    p % PAGE_SIZE == 0 && USER_STACK_TOP - USER_STACK_SIZE <= p < USER_STACK_TOP
  }

  /** The byte the segment puts at virtual address `v`: from the file while it lasts, else zero. */
  function SegmentByte(data: seq<Byte>, ph: ProgramHeader, v: nat): Byte {
    if ph.vaddr <= v < ph.vaddr + ph.filesz && ph.offset + (v - ph.vaddr) < |data|
    then data[ph.offset + (v - ph.vaddr)] else 0
  }

  function PageImage(data: seq<Byte>, ph: ProgramHeader, p: nat): (s: seq<Byte>)
    ensures |s| == PAGE_SIZE && forall k :: 0 <= k < PAGE_SIZE ==> s[k] == SegmentByte(data, ph, p + k)
  {
    seq<Byte>(PAGE_SIZE, k requires 0 <= k < PAGE_SIZE => SegmentByte(data, ph, p + k))
  }

  function ZeroPage(): (s: seq<Byte>)
    ensures |s| == PAGE_SIZE && forall k :: 0 <= k < PAGE_SIZE ==> s[k] == 0
  {
    seq<Byte>(PAGE_SIZE, _ => 0)
  }

  function Max(x: nat, y: nat): nat { if x > y then x else y }
  function Min(x: nat, y: nat): nat { if x < y then x else y }

  /** Zeroing the page and copying the overlap gives the page's image. */
  lemma CopyGivesImage(data: seq<Byte>, ph: ProgramHeader, p: nat)
    requires ph.vaddr + ph.filesz > p && ph.vaddr < p + PAGE_SIZE
    requires var a := Max(ph.vaddr, p);
             var b := Min(ph.vaddr + ph.filesz, p + PAGE_SIZE);
             a < b && ph.offset + (a - ph.vaddr) + (b - a) <= |data|
    ensures var a := Max(ph.vaddr, p);
            var b := Min(ph.vaddr + ph.filesz, p + PAGE_SIZE);
            var from := ph.offset + (a - ph.vaddr);
            ZeroPage()[..a - p] + data[from..from + (b - a)] + ZeroPage()[b - p..] == PageImage(data, ph, p)
  {
    var a := Max(ph.vaddr, p);
    var b := Min(ph.vaddr + ph.filesz, p + PAGE_SIZE);
    var from := ph.offset + (a - ph.vaddr);
    var s := ZeroPage()[..a - p] + data[from..from + (b - a)] + ZeroPage()[b - p..];
    forall k | 0 <= k < PAGE_SIZE ensures s[k] == PageImage(data, ph, p)[k] {
      assert a - p <= k < b - p ==> s[k] == data[from + (k - (a - p))];
    }
  }

  /** A page with no file bytes in it is all zeros. */
  lemma NoCopyGivesImage(data: seq<Byte>, ph: ProgramHeader, p: nat)
    requires ph.vaddr + ph.filesz <= p || ph.vaddr >= p + PAGE_SIZE || ph.filesz == 0
    ensures ZeroPage() == PageImage(data, ph, p)
  {}

  // ----- the address space

  datatype MapError = NoFrame | MapFailed

  datatype Mapped = Frame(addr: nat) | NotMapped(error: MapError)

  /** The user half of the page tables, the frames behind them, and the frame source. */
  class AddressSpace {
    var mapping: map<nat, nat>
    var ram: map<nat, seq<Byte>>
    var frames: seq<nat>
    /** Set once the mapper has run out of frames for its page tables. */
    var tablesFailed: bool

    predicate Exhausted()
      reads this
    {
      frames == [] || tablesFailed
    }

    /** Frames are mapped once, and no mapped frame is still to be handed out. */
    ghost predicate Valid()
      reads this
    {
      && NoDup(frames)
      && (forall f :: f in frames ==> f in ram)
      && (forall p :: p in mapping ==> mapping[p] in ram && mapping[p] !in frames)
      && (forall p, q :: p in mapping && q in mapping && mapping[p] == mapping[q] ==> p == q)
      && (forall f :: f in ram ==> |ram[f]| == PAGE_SIZE)
    }

    /** What user code sees: the bytes of every mapped page. */
    ghost function Image(): (m: map<nat, seq<Byte>>)
      requires Valid()
      reads this
      ensures m.Keys == mapping.Keys
    {
      map p | p in mapping :: ram[mapping[p]]
    }

    /** Take a frame and map it; an already mapped page, or no frame left for a page table, is an
        error that maps nothing. */
    method MapUserPage(vaddr: nat) returns (r: Mapped)
      requires Valid()
      modifies this
      ensures Valid()
      ensures old(frames) == [] ==> r == NotMapped(NoFrame)
      ensures vaddr in old(mapping) && old(frames) != [] ==> r == NotMapped(MapFailed)
      ensures r.NotMapped? ==> Image() == old(Image()) && (Exhausted() || vaddr in old(mapping))
      ensures old(Exhausted()) ==> Exhausted()
      ensures r.Frame? ==>
                && vaddr !in old(mapping) && vaddr in mapping && mapping[vaddr] == r.addr && r.addr in ram
                && Image() == old(Image())[vaddr := ram[r.addr]]
    {
      if frames == [] {
        return NotMapped(NoFrame);
      }
      var frame := frames[0];
      frames := frames[1..];
      if vaddr in mapping {
        return NotMapped(MapFailed);
      }
      // the mapper may take further frames for page tables, and may run out of them
      var tables: nat :| tables <= |frames|;
      frames := frames[tables..];
      var ranOut := *;
      if ranOut {
        tablesFailed := true;
        return NotMapped(MapFailed);
      }
      mapping := mapping[vaddr := frame];
      return Frame(frame);
    }

    /** Overwrite a mapped frame through the kernel's view of physical memory. */
    method WriteFrame(ghost vaddr: nat, frame: nat, bytes: seq<Byte>)
      requires Valid() && vaddr in mapping && mapping[vaddr] == frame && |bytes| == PAGE_SIZE
      modifies this`ram
      ensures Valid() && ram == old(ram)[frame := bytes] && Image() == old(Image())[vaddr := bytes]
    {
      ram := ram[frame := bytes];
    }
  }

  // ----- loading

  datatype Error = TooSmall | BadMagic | Not64Bit | HeaderOutOfBounds | MappingFailed(cause: MapError)

  /** `Panic` stands for an out-of-bounds slice of the file. */
  datatype Outcome<+T> = Ok(value: T) | Err(error: Error) | Panic

  datatype LoadResult = LoadResult(entryPoint: nat, stackTop: nat)

  type PageMap = map<nat, seq<Byte>>

  /** Pages mapped before are still mapped, with the same bytes. */
  ghost predicate Kept(before: PageMap, after: PageMap) {
    forall p :: p in before ==> p in after && after[p] == before[p]
  }

  lemma KeptUpdate(before: PageMap, after: PageMap, p: nat, bytes: seq<Byte>)
    requires Kept(before, after) && p !in before
    ensures Kept(before, after[p := bytes])
  {}

  lemma KeptRefl(before: PageMap)
    ensures Kept(before, before)
  {}

  lemma KeptTransitive(a: PageMap, b: PageMap, c: PageMap)
    requires Kept(a, b) && Kept(b, c)
    ensures Kept(a, c)
  {}

  lemma UpdateTwice(m: PageMap, p: nat, a: seq<Byte>, b: seq<Byte>)
    ensures m[p := a][p := b] == m[p := b]
  {}

  /** Loading one more page over `before` and the pages so far. */
  lemma OneMore(before: PageMap, pages: PageMap, p: nat, bytes: seq<Byte>)
    requires Kept(before, before + pages) && p !in before + pages
    ensures p !in before && (before + pages)[p := bytes] == before + pages[p := bytes]
    ensures Kept(before, before + pages[p := bytes])
  {}

  /** The pages of a segment below `end`, with their images. */
  ghost function SegmentPages(data: seq<Byte>, ph: ProgramHeader, end: nat): PageMap {
    map p: nat | p < end && SegmentPage(ph, p) :: PageImage(data, ph, p)
  }

  ghost function StackPages(end: nat): PageMap {
    map p: nat | p < end && StackPage(p) :: ZeroPage()
  }

  /** The file is too short for a byte the segment keeps in this page. */
  ghost predicate MissingByte(data: seq<Byte>, ph: ProgramHeader, page: nat, v: nat) {
    page <= v < page + PAGE_SIZE && ph.vaddr <= v < ph.vaddr + ph.filesz && ph.offset + (v - ph.vaddr) >= |data|
  }

  /** The file holds every byte the segment keeps in this page. */
  ghost predicate FileHolds(data: seq<Byte>, ph: ProgramHeader, page: nat) {
    forall v: nat :: !MissingByte(data, ph, page, v)
  }

  /** Copy into a zeroed page what the file has for it. */
  method FillPage(data: seq<Byte>, ph: ProgramHeader, page: nat) returns (r: Outcome<seq<Byte>>)
    ensures !r.Err?
    ensures r.Panic? <==> !FileHolds(data, ph, page)
    ensures r.Ok? ==> r.value == PageImage(data, ph, page)
  {
    hide PageImage, ZeroPage;
    var bytes := ZeroPage();
    var segFileEnd := ph.vaddr + ph.filesz;
    if segFileEnd > page && ph.vaddr < page + PAGE_SIZE {
      var copyStart := Max(ph.vaddr, page);
      var copyEnd := Min(segFileEnd, page + PAGE_SIZE);
      var copyLen := copyEnd - copyStart;
      if copyLen > 0 {
        var fileOffset := ph.offset + (copyStart - ph.vaddr);
        if fileOffset + copyLen > |data| {
          assert MissingByte(data, ph, page, copyEnd - 1);
          return Panic;
        }
        CopyGivesImage(data, ph, page);
        var src := data[fileOffset..fileOffset + copyLen];
        var pageOffset := copyStart - page;
        bytes := bytes[..pageOffset] + src + bytes[pageOffset + copyLen..];
        return Ok(bytes);
      }
    }
    NoCopyGivesImage(data, ph, page);
    return Ok(bytes);
  }

  /** The addresses a 64-bit virtual address may have: bits 48 to 63 repeat bit 47. Constructing any
      other panics. */
  predicate Canonical(v: nat) {
    v < 0x8000_0000_0000 || v >= WORD - 0x8000_0000_0000
  }

  /** Nothing about this page makes the loader panic. */
  ghost predicate PageLoads(data: seq<Byte>, ph: ProgramHeader, page: nat) {
    Canonical(page) && FileHolds(data, ph, page)
  }

  /** Those are the words whose upper 17 bits are all equal. */
  lemma CanonicalExact(v: nat)
    requires v < WORD
    ensures Canonical(v) <==> Shr(v, 47) == 0 || Shr(v, 47) == 0x1_FFFF
  {
    hide Shr, AlignDown, Pow2;
    AlignDownIsRounding(v, 47);
    assert Pow2(47) == 0x8000_0000_0000 by { PowerOf47(); }
  }

  lemma PowerOf47()
    ensures Pow2(47) == 0x8000_0000_0000
  {
    hide Pow2;
    assert Pow2(8) == 256 && Pow2(7) == 128 by { EighthPower(); SeventhPower(); }
    Pow2Add(8, 8);
    Pow2Add(16, 16);
    Pow2Add(32, 8);
    Pow2Add(40, 7);
  }

  lemma SeventhPower()
    ensures Pow2(7) == 128
  {}

  /** Map one page, zero it, and fill it from the file. */
  method LoadPage(data: seq<Byte>, ph: ProgramHeader, page: nat, space: AddressSpace) returns (r: Outcome<()>)
    requires space.Valid()
    modifies space
    ensures space.Valid() && Kept(old(space.Image()), space.Image())
    ensures r.Ok? ==> page !in old(space.mapping) && space.Image() == old(space.Image())[page := PageImage(data, ph, page)]
    ensures r.Ok? ==> PageLoads(data, ph, page)
    ensures r.Err? ==> r.error.MappingFailed? && (space.Exhausted() || page in old(space.mapping))
    ensures r.Panic? ==> !PageLoads(data, ph, page)
  {
    hide AddressSpace.Valid, AddressSpace.Image, PageImage, ZeroPage, Kept, FileHolds, Canonical;
    ghost var img := space.Image();
    KeptRefl(img);
    if !Canonical(page) {
      return Panic;
    }
    var m := space.MapUserPage(page);
    if m.NotMapped? {
      return Err(MappingFailed(m.error));
    }
    UpdateTwice(img, page, space.ram[m.addr], ZeroPage());
    space.WriteFrame(page, m.addr, ZeroPage());
    KeptUpdate(img, img, page, ZeroPage());
    var filled := FillPage(data, ph, page);
    if filled.Panic? {
      return Panic;
    }
    UpdateTwice(img, page, ZeroPage(), filled.value);
    KeptUpdate(img, img, page, filled.value);
    space.WriteFrame(page, m.addr, filled.value);
    return Ok(());
  }

  /** Load every page of a segment. */
  method LoadSegment(data: seq<Byte>, ph: ProgramHeader, space: AddressSpace) returns (r: Outcome<()>)
    requires space.Valid()
    modifies space
    ensures space.Valid() && Kept(old(space.Image()), space.Image())
    ensures r.Ok? ==>
              && (forall p: nat :: SegmentPage(ph, p) ==> p !in old(space.mapping) && PageLoads(data, ph, p))
              && space.Image() == old(space.Image()) + SegmentPages(data, ph, EndPage(ph))
    ensures r.Err? ==> r.error.MappingFailed? && (space.Exhausted() || exists p: nat :: SegmentPage(ph, p) && p in old(space.mapping))
    ensures r.Panic? ==> exists p: nat :: SegmentPage(ph, p) && !PageLoads(data, ph, p)
  {
    hide PageImage, AddressSpace.Valid, AddressSpace.Image, SegmentPages, SegmentPage, Kept, PageLoads, EndPage;
    ghost var img := space.Image();
    var page := FirstPage(ph);
    var end := EndPage(ph);
    NoPages(data, ph);
    KeptRefl(img);
    assert img + map[] == img;
    while page < end
      invariant page % PAGE_SIZE == 0 && FirstPage(ph) <= page && space.Valid()
      invariant Kept(img, space.Image()) && space.Image() == img + SegmentPages(data, ph, page)
      invariant SegmentPages(data, ph, page).Keys !! img.Keys
      invariant forall p :: p in SegmentPages(data, ph, page) ==> PageLoads(data, ph, p)
      decreases end - page
    {
      ghost var mid := space.Image();
      r := LoadPage(data, ph, page, space);
      KeptTransitive(img, mid, space.Image());
      if !r.Ok? {
        IsSegmentPage(data, ph, page);
        assert page in mid ==> page in img;
        return;
      }
      NextPage(data, ph, page);
      OneMore(img, SegmentPages(data, ph, page), page, PageImage(data, ph, page));
      page := page + PAGE_SIZE;
    }
    AllPages(data, ph, page);
    SegmentPagesKeys(data, ph);
    return Ok(());
  }

  lemma NextPage(data: seq<Byte>, ph: ProgramHeader, page: nat)
    requires page % PAGE_SIZE == 0 && FirstPage(ph) <= page < EndPage(ph)
    ensures SegmentPages(data, ph, page + PAGE_SIZE) == SegmentPages(data, ph, page)[page := PageImage(data, ph, page)]
  {
    hide PageImage, FirstPage, EndPage;
    forall p: nat | SegmentPage(ph, p) && p < page + PAGE_SIZE ensures p <= page { NoPageBetween(p, page); }
    assert SegmentPage(ph, page);
  }

  lemma IsSegmentPage(data: seq<Byte>, ph: ProgramHeader, page: nat)
    requires page % PAGE_SIZE == 0 && FirstPage(ph) <= page < EndPage(ph)
    ensures SegmentPage(ph, page) && page !in SegmentPages(data, ph, page)
  {}

  lemma NoPageBetween(p: nat, q: nat)
    requires p % PAGE_SIZE == 0 && q % PAGE_SIZE == 0 && p < q + PAGE_SIZE
    ensures p <= q
  {}

  lemma NoPages(data: seq<Byte>, ph: ProgramHeader)
    ensures SegmentPages(data, ph, FirstPage(ph)) == map[]
  {}

  lemma AllPages(data: seq<Byte>, ph: ProgramHeader, page: nat)
    requires page >= EndPage(ph)
    ensures SegmentPages(data, ph, page) == SegmentPages(data, ph, EndPage(ph))
  {}

  // ----- the whole file

  /** Page `p` belongs to a loadable segment among the first `n`. */
  ghost predicate LoadedPage(data: seq<Byte>, n: nat, p: nat)
    requires |data| >= HEADER_SIZE
  {
    exists i: nat :: i < n && Loadable(data, i) && SegmentPage(HeaderAt(data, i).value, p)
  }

  /** The first `n` loadable segments are in place over `before`: each of their pages is new, has
      its segment's image, and no two segments share one; nothing else is mapped. */
  ghost predicate SegmentsLoaded(data: seq<Byte>, n: nat, before: PageMap, img: PageMap)
    requires |data| >= HEADER_SIZE
  {
    InPlace(data, n, before, img) && NoSharing(data, n) && NothingElse(data, n, before, img) && Kept(before, img)
  }

  ghost predicate InPlace(data: seq<Byte>, n: nat, before: PageMap, img: PageMap)
    requires |data| >= HEADER_SIZE
  {
    forall i: nat, p: nat :: i < n && Loadable(data, i) && SegmentPage(HeaderAt(data, i).value, p) ==>
      PageInPlace(data, HeaderAt(data, i).value, p, before, img)
  }

  /** A page of the segment is new, and holds the segment's image. */
  ghost predicate PageInPlace(data: seq<Byte>, ph: ProgramHeader, p: nat, before: PageMap, img: PageMap) {
    p !in before && p in img && img[p] == PageImage(data, ph, p) && PageLoads(data, ph, p)
  }

  ghost predicate NoSharing(data: seq<Byte>, n: nat)
    requires |data| >= HEADER_SIZE
  {
    forall i: nat, j: nat, p: nat :: i < j < n && Loadable(data, i) && Loadable(data, j) ==>
      !(SegmentPage(HeaderAt(data, i).value, p) && SegmentPage(HeaderAt(data, j).value, p))
  }

  ghost predicate NothingElse(data: seq<Byte>, n: nat, before: PageMap, img: PageMap)
    requires |data| >= HEADER_SIZE
  {
    forall p :: p in img ==> p in before || LoadedPage(data, n, p)
  }

  lemma NoSegments(data: seq<Byte>, img: PageMap)
    requires |data| >= HEADER_SIZE
    ensures SegmentsLoaded(data, 0, img, img)
  {}

  lemma SkipSegment(data: seq<Byte>, n: nat, before: PageMap, img: PageMap)
    requires |data| >= HEADER_SIZE && SegmentsLoaded(data, n, before, img) && !Loadable(data, n)
    ensures SegmentsLoaded(data, n + 1, before, img)
  {
    hide HeaderAt, PageImage, SegmentPage, PageLoads, LoadedPage, Loadable;
    MorePages(data, n);
    assert InPlace(data, n + 1, before, img);
    assert NoSharing(data, n + 1);
  }

  /** One more segment, on pages that were not mapped. */
  lemma AddSegment(data: seq<Byte>, n: nat, before: PageMap, img: PageMap, after: PageMap)
    requires |data| >= HEADER_SIZE && SegmentsLoaded(data, n, before, img) && Loadable(data, n)
    requires var ph := HeaderAt(data, n).value;
             && (forall p: nat :: SegmentPage(ph, p) ==> p !in img && PageLoads(data, ph, p))
             && after == img + SegmentPages(data, ph, EndPage(ph))
    ensures SegmentsLoaded(data, n + 1, before, after)
  {
    hide HeaderAt, PageImage, SegmentPage, SegmentPages, InPlace, NoSharing, NothingElse, LoadedPage, PageLoads;
    var ph := HeaderAt(data, n).value;
    SegmentPagesKeys(data, ph);
    AddInPlace(data, n, before, img, after);
    AddNoSharing(data, n, before, img);
    MorePages(data, n);
    AddNothingElse(data, n, before, img, after);
    assert Kept(before, after);
  }

  lemma AddInPlace(data: seq<Byte>, n: nat, before: PageMap, img: PageMap, after: PageMap)
    requires |data| >= HEADER_SIZE && InPlace(data, n, before, img) && Kept(before, img) && Loadable(data, n)
    requires var ph := HeaderAt(data, n).value;
             && (forall p: nat :: SegmentPage(ph, p) ==> p !in img && PageLoads(data, ph, p))
             && after == img + SegmentPages(data, ph, EndPage(ph))
    ensures InPlace(data, n + 1, before, after)
  {
    hide HeaderAt, PageImage, SegmentPage, SegmentPages, PageLoads;
    SegmentPagesKeys(data, HeaderAt(data, n).value);
    forall i: nat, p: nat | i < n + 1 && Loadable(data, i) && SegmentPage(HeaderAt(data, i).value, p)
      ensures PageInPlace(data, HeaderAt(data, i).value, p, before, after)
    {
      assert i < n ==> PageInPlace(data, HeaderAt(data, i).value, p, before, img);
    }
  }

  lemma AddNoSharing(data: seq<Byte>, n: nat, before: PageMap, img: PageMap)
    requires |data| >= HEADER_SIZE && InPlace(data, n, before, img) && NoSharing(data, n) && Loadable(data, n)
    requires forall p: nat :: SegmentPage(HeaderAt(data, n).value, p) ==> p !in img
    ensures NoSharing(data, n + 1)
  {
    hide HeaderAt, PageImage, SegmentPage;
    forall i: nat, p: nat | i < n && Loadable(data, i) && SegmentPage(HeaderAt(data, i).value, p) ensures p in img {
      assert PageInPlace(data, HeaderAt(data, i).value, p, before, img);
    }
  }

  lemma AddNothingElse(data: seq<Byte>, n: nat, before: PageMap, img: PageMap, after: PageMap)
    requires |data| >= HEADER_SIZE && NothingElse(data, n, before, img) && Loadable(data, n)
    requires var ph := HeaderAt(data, n).value; after == img + SegmentPages(data, ph, EndPage(ph))
    ensures NothingElse(data, n + 1, before, after)
  {
    hide HeaderAt, PageImage, SegmentPage, SegmentPages, LoadedPage;
    SegmentPagesKeys(data, HeaderAt(data, n).value);
    MorePages(data, n);
  }

  lemma SegmentPagesKeys(data: seq<Byte>, ph: ProgramHeader)
    ensures forall p: nat :: p in SegmentPages(data, ph, EndPage(ph)) <==> SegmentPage(ph, p)
    ensures forall p: nat :: SegmentPage(ph, p) ==> SegmentPages(data, ph, EndPage(ph))[p] == PageImage(data, ph, p)
  {}

  lemma MorePages(data: seq<Byte>, n: nat)
    requires |data| >= HEADER_SIZE
    ensures forall p :: LoadedPage(data, n, p) ==> LoadedPage(data, n + 1, p)
    ensures Loadable(data, n) ==> forall p :: SegmentPage(HeaderAt(data, n).value, p) ==> LoadedPage(data, n + 1, p)
  {
    hide HeaderAt, SegmentPage;
    forall p | LoadedPage(data, n, p) ensures LoadedPage(data, n + 1, p) {
      var i: nat :| i < n && Loadable(data, i) && SegmentPage(HeaderAt(data, i).value, p);
      assert i < n + 1 && Loadable(data, i);
    }
  }

  /** A loadable segment has a page that was mapped before or belongs to an earlier one. */
  ghost predicate SegmentConflict(data: seq<Byte>, before: PageMap)
    requires |data| >= HEADER_SIZE
  {
    exists i: nat, p: nat :: i < ReadHeader(data).phnum && Loadable(data, i) && SegmentPage(HeaderAt(data, i).value, p)
      && (p in before || LoadedPage(data, i, p))
  }

  /** The file ends before a byte that a loadable segment keeps in one of its pages. */
  ghost predicate FileTooShort(data: seq<Byte>)
    requires |data| >= HEADER_SIZE
  {
    exists i: nat, p: nat :: i < ReadHeader(data).phnum && Loadable(data, i)
      && SegmentPage(HeaderAt(data, i).value, p) && !FileHolds(data, HeaderAt(data, i).value, p)
  }

  /** A loadable segment reaches into the gap of non-canonical addresses. */
  ghost predicate SegmentNotCanonical(data: seq<Byte>)
    requires |data| >= HEADER_SIZE
  {
    exists i: nat, p: nat :: i < ReadHeader(data).phnum && Loadable(data, i)
      && SegmentPage(HeaderAt(data, i).value, p) && !Canonical(p)
  }

  /** Loading stopped at header `n`, the first that is bad: every earlier one exists and is in place in
      `mid`, and nothing mapped by then has changed. `None` stands for a panic. */
  ghost predicate StoppedAt(data: seq<Byte>, n: nat, before: PageMap, mid: PageMap, img: PageMap, error: Option<Error>, exhausted: bool)
    requires |data| >= HEADER_SIZE
  {
    && n < ReadHeader(data).phnum && (forall k: nat :: k < n ==> HeaderAt(data, k).Some?)
    && SegmentsLoaded(data, n, before, mid) && Kept(mid, img)
    && match error
       case None => Loadable(data, n) && exists p: nat :: SegmentPage(HeaderAt(data, n).value, p) && !PageLoads(data, HeaderAt(data, n).value, p)
       case Some(HeaderOutOfBounds) => HeaderAt(data, n).None? && img == mid
       case Some(MappingFailed(_)) => Loadable(data, n) && (exhausted || exists p: nat :: SegmentPage(HeaderAt(data, n).value, p) && p in mid)
       case _ => false
  }

  /** Every segment is in place in `mid`, and a stack page could not be mapped. */
  ghost predicate StackFailed(data: seq<Byte>, before: PageMap, mid: PageMap, img: PageMap, error: Option<Error>, exhausted: bool)
    requires |data| >= HEADER_SIZE
  {
    && SegmentsLoaded(data, ReadHeader(data).phnum, before, mid) && Kept(mid, img)
    && error.Some? && error.value.MappingFailed? && (exhausted || exists p: nat :: StackPage(p) && p in mid)
  }

  function ErrorOf<T>(r: Outcome<T>): Option<Error>
    requires !r.Ok?
  {
    if r.Panic? then None else Some(r.error)
  }

  method LoadSegments(data: seq<Byte>, space: AddressSpace) returns (r: Outcome<()>)
    requires |data| >= HEADER_SIZE && space.Valid()
    modifies space
    ensures space.Valid() && Kept(old(space.Image()), space.Image())
    ensures r.Ok? ==> SegmentsLoaded(data, ReadHeader(data).phnum, old(space.Image()), space.Image())
    ensures r.Ok? ==> forall i: nat :: i < ReadHeader(data).phnum ==> HeaderAt(data, i).Some?
    ensures r.Err? ==>
              || (r.error.HeaderOutOfBounds? && exists i: nat :: i < ReadHeader(data).phnum && HeaderAt(data, i).None?)
              || (r.error.MappingFailed? && (space.Exhausted() || SegmentConflict(data, old(space.Image()))))
    ensures r.Panic? ==> FileTooShort(data) || SegmentNotCanonical(data)
    ensures !r.Ok? ==> exists n: nat, mid: PageMap :: StoppedAt(data, n, old(space.Image()), mid, space.Image(), ErrorOf(r), space.Exhausted())
  {
    hide AddressSpace.Valid, AddressSpace.Image, SegmentsLoaded, SegmentPages, ReadProgramHeader, SegmentPage, Kept, Field, PageLoads, AddressSpace.Exhausted;
    var header := ReadHeader(data);
    KeptRefl(space.Image());
    NoSegments(data, space.Image());
    for i := 0 to header.phnum
      invariant space.Valid() && Kept(old(space.Image()), space.Image())
      invariant SegmentsLoaded(data, i, old(space.Image()), space.Image())
      invariant forall k: nat :: k < i ==> HeaderAt(data, k).Some?
    {
      var at := header.phoff + i * header.phentsize;
      if at + PROGRAM_HEADER_SIZE > |data| {
        assert HeaderAt(data, i).None?;
        KeptRefl(space.Image());
        r := Err(HeaderOutOfBounds);
        assert StoppedAt(data, i, old(space.Image()), space.Image(), space.Image(), ErrorOf(r), space.Exhausted());
        return;
      }
      var ph := ReadProgramHeader(data, at);
      assert HeaderAt(data, i) == Some(ph);
      if ph.kind == PT_LOAD {
        ghost var img := space.Image();
        r := LoadSegment(data, ph, space);
        KeptTransitive(old(space.Image()), img, space.Image());
        if !r.Ok? {
          WhyFailed(data, i, old(space.Image()), img);
          assert StoppedAt(data, i, old(space.Image()), img, space.Image(), ErrorOf(r), space.Exhausted());
          return;
        }
        AddSegment(data, i, old(space.Image()), img, space.Image());
      } else {
        SkipSegment(data, i, old(space.Image()), space.Image());
      }
    }
    return Ok(());
  }

  /** A segment that fails on a mapped page, or panics, does so for the file's own reasons. */
  lemma WhyFailed(data: seq<Byte>, n: nat, before: PageMap, img: PageMap)
    requires |data| >= HEADER_SIZE && n < ReadHeader(data).phnum && Loadable(data, n) && SegmentsLoaded(data, n, before, img)
    ensures (exists p: nat :: SegmentPage(HeaderAt(data, n).value, p) && p in img) ==> SegmentConflict(data, before)
    ensures (exists p: nat :: SegmentPage(HeaderAt(data, n).value, p) && !PageLoads(data, HeaderAt(data, n).value, p)) ==>
              FileTooShort(data) || SegmentNotCanonical(data)
  {
    hide HeaderAt, ReadHeader, SegmentPage, FileHolds, Canonical, LoadedPage, InPlace, NoSharing, Kept;
  }

  /** Map the stack pages and zero them. */
  method MapStack(space: AddressSpace) returns (r: Outcome<()>)
    requires space.Valid()
    modifies space
    ensures space.Valid() && Kept(old(space.Image()), space.Image()) && !r.Panic?
    ensures r.Ok? ==>
              && (forall p: nat :: StackPage(p) ==> p !in old(space.mapping))
              && space.Image() == old(space.Image()) + StackPages(USER_STACK_TOP)
    ensures r.Err? ==> r.error.MappingFailed? && (space.Exhausted() || exists p: nat :: StackPage(p) && p in old(space.mapping))
  {
    hide AddressSpace.Valid, AddressSpace.Image, StackPages, StackPage, ZeroPage, Kept;
    ghost var img := space.Image();
    var page := USER_STACK_TOP - USER_STACK_SIZE;
    StackStart();
    KeptRefl(img);
    assert img + map[] == img;
    while page < USER_STACK_TOP
      invariant page % PAGE_SIZE == 0 && USER_STACK_TOP - USER_STACK_SIZE <= page <= USER_STACK_TOP && space.Valid()
      invariant Kept(img, space.Image()) && space.Image() == img + StackPages(page) && StackPages(page).Keys !! img.Keys
      decreases USER_STACK_TOP - page
    {
      var m := space.MapUserPage(page);
      if m.NotMapped? {
        IsStackPage(page);
        return Err(MappingFailed(m.error));
      }
      UpdateTwice(img + StackPages(page), page, space.ram[m.addr], ZeroPage());
      space.WriteFrame(page, m.addr, ZeroPage());
      NextStackPage(page);
      OneMore(img, StackPages(page), page, ZeroPage());
      page := page + PAGE_SIZE;
    }
    forall p: nat | StackPage(p) ensures p !in img { StackPagesKeys(p); }
    return Ok(());
  }

  lemma StackStart()
    ensures StackPages(USER_STACK_TOP - USER_STACK_SIZE) == map[]
  {}

  lemma IsStackPage(page: nat)
    requires page % PAGE_SIZE == 0 && USER_STACK_TOP - USER_STACK_SIZE <= page < USER_STACK_TOP
    ensures StackPage(page) && page !in StackPages(page)
  {}

  lemma NextStackPage(page: nat)
    requires page % PAGE_SIZE == 0 && USER_STACK_TOP - USER_STACK_SIZE <= page < USER_STACK_TOP
    ensures page + PAGE_SIZE <= USER_STACK_TOP
    ensures StackPages(page + PAGE_SIZE) == StackPages(page)[page := ZeroPage()]
  {
    forall p: nat | StackPage(p) && p < page + PAGE_SIZE ensures p <= page { NoPageBetween(p, page); }
  }

  /** No 64-bit sum the loader forms overflows. */
  ghost predicate NoOverflow(data: seq<Byte>) {
    |data| >= HEADER_SIZE ==>
      forall i: nat :: i < ReadHeader(data).phnum ==>
        && ProgramHeaderStart(ReadHeader(data), i) + PROGRAM_HEADER_SIZE < WORD
        && (Loadable(data, i) ==>
              var ph := HeaderAt(data, i).value;
              ph.vaddr + ph.memsz + 0xFFF < WORD && ph.vaddr + ph.filesz < WORD && ph.offset + ph.filesz < WORD)
  }

  /** What a loaded file looks like: every segment in place, a zeroed stack, the rest untouched. */
  ghost predicate Loaded(data: seq<Byte>, before: PageMap, img: PageMap)
    requires |data| >= HEADER_SIZE
  {
    && (forall i: nat :: i < ReadHeader(data).phnum ==> HeaderAt(data, i).Some?)
    && exists segs: PageMap ::
      && SegmentsLoaded(data, ReadHeader(data).phnum, before, segs)
      && (forall p: nat :: StackPage(p) ==> p !in segs)
      && img == segs + StackPages(USER_STACK_TOP)
  }

  /** Loading needs one page twice: for a segment, or for the stack. */
  ghost predicate Conflict(data: seq<Byte>, before: PageMap)
    requires |data| >= HEADER_SIZE
  {
    SegmentConflict(data, before) || exists p: nat :: StackPage(p) && (p in before || LoadedPage(data, ReadHeader(data).phnum, p))
  }

  /** What is wrong with a file, or with the pages mapped before it. */
  ghost predicate Refused(data: seq<Byte>, before: PageMap)
    requires |data| >= HEADER_SIZE
  {
    || (exists i: nat :: i < ReadHeader(data).phnum && HeaderAt(data, i).None?)
    || Conflict(data, before) || FileTooShort(data) || SegmentNotCanonical(data)
  }

  method LoadElf(data: seq<Byte>, space: AddressSpace) returns (r: Outcome<LoadResult>)
    requires space.Valid() && NoOverflow(data)
    modifies space
    ensures space.Valid() && Kept(old(space.Image()), space.Image())
    ensures r.Ok? ==>
              && |data| >= HEADER_SIZE && HasMagic(data) && Is64Bit(data)
              && r.value == LoadResult(ReadHeader(data).entry, USER_STACK_TOP)
              && Loaded(data, old(space.Image()), space.Image())
    ensures r == Err(TooSmall) <==> |data| < HEADER_SIZE
    ensures r == Err(BadMagic) <==> |data| >= HEADER_SIZE && !HasMagic(data)
    ensures r == Err(Not64Bit) <==> |data| >= HEADER_SIZE && HasMagic(data) && !Is64Bit(data)
    ensures r == Err(HeaderOutOfBounds) ==> exists i: nat :: i < ReadHeader(data).phnum && HeaderAt(data, i).None?
    ensures r.Err? && r.error.MappingFailed? ==> space.Exhausted() || Conflict(data, old(space.Image()))
    ensures |data| >= HEADER_SIZE && HasMagic(data) && Is64Bit(data) && !Refused(data, old(space.Image())) && !space.Exhausted() ==> r.Ok?
    ensures r.Panic? ==> FileTooShort(data) || SegmentNotCanonical(data)
    ensures |data| >= HEADER_SIZE && HasMagic(data) && Is64Bit(data) && !r.Ok? ==>
              || (exists n: nat, mid: PageMap :: StoppedAt(data, n, old(space.Image()), mid, space.Image(), ErrorOf(r), space.Exhausted()))
              || (exists mid: PageMap :: StackFailed(data, old(space.Image()), mid, space.Image(), ErrorOf(r), space.Exhausted()))
  {
    hide AddressSpace.Valid, AddressSpace.Image, SegmentsLoaded, StackPages, StoppedAt, AddressSpace.Exhausted, HeaderAt, StackPage, NoOverflow, Kept, SegmentConflict, LoadedPage, FileTooShort, SegmentNotCanonical;
    KeptRefl(space.Image());
    if |data| < HEADER_SIZE {
      return Err(TooSmall);
    }
    if data[0..4] != [0x7F, 0x45, 0x4C, 0x46] {
      return Err(BadMagic);
    }
    if data[4] != 2 {
      return Err(Not64Bit);
    }
    var loaded := LoadSegments(data, space);
    if !loaded.Ok? {
      ghost var n: nat, mid: PageMap :| StoppedAt(data, n, old(space.Image()), mid, space.Image(), ErrorOf(loaded), space.Exhausted());
      r := if loaded.Panic? then Panic else Err(loaded.error);
      assert ErrorOf(r) == ErrorOf(loaded);
      assert StoppedAt(data, n, old(space.Image()), mid, space.Image(), ErrorOf(r), space.Exhausted());
      return;
    }
    ghost var segs := space.Image();
    var stack := MapStack(space);
    KeptTransitive(old(space.Image()), segs, space.Image());
    if !stack.Ok? {
      StackConflict(data, old(space.Image()), segs);
      r := Err(stack.error);
      assert StackFailed(data, old(space.Image()), segs, space.Image(), ErrorOf(r), space.Exhausted());
      return;
    }
    assert Loaded(data, old(space.Image()), space.Image());
    return Ok(LoadResult(ReadHeader(data).entry, USER_STACK_TOP));
  }

  lemma StackConflict(data: seq<Byte>, before: PageMap, segs: PageMap)
    requires |data| >= HEADER_SIZE && SegmentsLoaded(data, ReadHeader(data).phnum, before, segs)
    ensures (exists p: nat :: StackPage(p) && p in segs) ==> Conflict(data, before)
  {
    hide HeaderAt, ReadHeader, StackPage, LoadedPage, InPlace, NoSharing, Kept, SegmentConflict;
  }

  // ----- what a loaded image means

  /** The bytes user code sees at address `v`. */
  ghost function ByteAt(img: PageMap, v: nat): Option<Byte> {
    if PageDown(v) in img && v - PageDown(v) < |img[PageDown(v)]| then Some(img[PageDown(v)][v - PageDown(v)]) else None
  }

  /** Every byte of every page of every loadable segment, padding included. */
  lemma LoadedImage(data: seq<Byte>, before: PageMap, img: PageMap, i: nat, v: nat)
    requires |data| >= HEADER_SIZE && Loaded(data, before, img) && i < ReadHeader(data).phnum && Loadable(data, i)
    requires SegmentPage(HeaderAt(data, i).value, PageDown(v))
    ensures ByteAt(img, v) == Some(SegmentByte(data, HeaderAt(data, i).value, v))
  {
    hide HeaderAt, Loaded, SegmentPage, PageDown, PageImage, SegmentByte, ReadHeader;
    LoadedPageImage(data, before, img, i, PageDown(v));
    PageDownBounds(v);
  }

  lemma LoadedPageImage(data: seq<Byte>, before: PageMap, img: PageMap, i: nat, p: nat)
    requires |data| >= HEADER_SIZE && Loaded(data, before, img) && i < ReadHeader(data).phnum && Loadable(data, i)
    requires SegmentPage(HeaderAt(data, i).value, p)
    ensures p in img && img[p] == PageImage(data, HeaderAt(data, i).value, p)
    ensures PageLoads(data, HeaderAt(data, i).value, p)
  {
    hide HeaderAt, PageLoads, StackPages, ReadHeader, NoSharing, NothingElse, SegmentPage, StackPage, PageImage, Kept;
    var segs: PageMap :| SegmentsLoaded(data, ReadHeader(data).phnum, before, segs)
      && (forall q: nat :: StackPage(q) ==> q !in segs) && img == segs + StackPages(USER_STACK_TOP);
    assert PageInPlace(data, HeaderAt(data, i).value, p, before, segs);
    StackPagesKeys(p);
  }

  lemma PageDownBounds(v: nat)
    ensures PageDown(v) <= v < PageDown(v) + PAGE_SIZE
  {}

  lemma StackPagesKeys(p: nat)
    ensures p in StackPages(USER_STACK_TOP) <==> StackPage(p)
    ensures StackPage(p) ==> StackPages(USER_STACK_TOP)[p] == ZeroPage()
  {}

  /** Every address of the segment's memory lies in one of its pages. */
  lemma SegmentCovered(ph: ProgramHeader, v: nat)
    requires ph.vaddr <= v < ph.vaddr + ph.memsz
    ensures SegmentPage(ph, PageDown(v))
  {}

  /** Exactly the pages that hold a byte of the segment's memory are its pages; a segment without
      memory has at most the page it starts in the middle of. */
  lemma SegmentPagesExact(ph: ProgramHeader, p: nat)
    requires p % PAGE_SIZE == 0
    ensures ph.memsz > 0 ==> (SegmentPage(ph, p) <==> p < ph.vaddr + ph.memsz && ph.vaddr < p + PAGE_SIZE)
    ensures ph.memsz == 0 ==> (SegmentPage(ph, p) <==> p < ph.vaddr < p + PAGE_SIZE)
  {
    var end := ph.vaddr + ph.memsz + 0xFFF;
    assert PageDown(end) <= end < PageDown(end) + PAGE_SIZE;
    if p < PageDown(end) { PageGap(p, PageDown(end)); }
    if p < FirstPage(ph) { PageGap(p, FirstPage(ph)); }
    if FirstPage(ph) < p { PageGap(FirstPage(ph), p); }
    if PageDown(end) < p { PageGap(PageDown(end), p); }
  }

  lemma PageGap(p: nat, q: nat)
    requires p % PAGE_SIZE == 0 && q % PAGE_SIZE == 0 && p < q
    ensures p + PAGE_SIZE <= q
  {}

  /** What the System V gABI requires of a loadable segment, for every one of them at once: the
      first `filesz` bytes of its memory are the file's, and the rest up to `memsz` are zero. */
  lemma SegmentInMemory(data: seq<Byte>, before: PageMap, img: PageMap, i: nat, k: nat)
    requires |data| >= HEADER_SIZE && Loaded(data, before, img) && i < ReadHeader(data).phnum && Loadable(data, i)
    requires k < HeaderAt(data, i).value.memsz
    ensures var ph := HeaderAt(data, i).value;
            && (k < ph.filesz ==> ph.offset + k < |data| && ByteAt(img, ph.vaddr + k) == Some(data[ph.offset + k]))
            && (k >= ph.filesz ==> ByteAt(img, ph.vaddr + k) == Some(0))
  {
    hide HeaderAt, Loaded, ReadHeader, ByteAt, SegmentPage, PageDown, PageImage;
    var ph := HeaderAt(data, i).value;
    var v := ph.vaddr + k;
    SegmentCovered(ph, v);
    LoadedImage(data, before, img, i, v);
    LoadedPageImage(data, before, img, i, PageDown(v));
    PageDownBounds(v);
    assert !MissingByte(data, ph, PageDown(v), v);
  }

  /** The same from the file's side: what the format says of a file is what a loaded image holds. */
  lemma FileInMemory(data: seq<Byte>, f: FullHeader, fs: seq<FullProgramHeader>, before: PageMap, img: PageMap, i: nat, k: nat)
    requires FileOf(data, f, fs) && Loaded(data, before, img)
    requires i < |fs| && fs[i].ph.kind == 1 && k < fs[i].ph.memsz
    ensures var ph := fs[i].ph;
            ByteAt(img, ph.vaddr + k) ==
              if k < ph.filesz then (if ph.offset + k < |data| then Some(data[ph.offset + k]) else None) else Some(0)
    ensures k < fs[i].ph.filesz ==> fs[i].ph.offset + k < |data|
  {
    hide FileOf, Loaded, HeaderAt, ReadHeader, ByteAt;
    FileIsRead(data, f, fs, i);
    HeaderCount(data, f, fs);
    SegmentInMemory(data, before, img, i, k);
  }

  lemma HeaderCount(data: seq<Byte>, f: FullHeader, fs: seq<FullProgramHeader>)
    requires FileOf(data, f, fs)
    ensures f.h.phnum == |fs| && |data| >= HEADER_SIZE
  {}

  /** The rest of a segment's pages: outside its memory, a byte is zero unless the file part is longer
      than the memory and covers it. */
  lemma PaddingExact(data: seq<Byte>, before: PageMap, img: PageMap, i: nat, v: nat)
    requires |data| >= HEADER_SIZE && Loaded(data, before, img) && i < ReadHeader(data).phnum && Loadable(data, i)
    requires var ph := HeaderAt(data, i).value;
             SegmentPage(ph, PageDown(v)) && !(ph.vaddr <= v < ph.vaddr + ph.memsz)
    ensures var ph := HeaderAt(data, i).value;
            && (ph.filesz <= ph.memsz ==> ByteAt(img, v) == Some(0))
            && (v < ph.vaddr || ph.vaddr + ph.filesz <= v ==> ByteAt(img, v) == Some(0))
            && (ph.vaddr <= v < ph.vaddr + ph.filesz ==>
                  var k := ph.offset + (v - ph.vaddr);
                  k < |data| && ByteAt(img, v) == Some(data[k]))
  {
    hide HeaderAt, Loaded, ReadHeader, ByteAt, SegmentPage, PageDown, PageImage;
    var ph := HeaderAt(data, i).value;
    LoadedImage(data, before, img, i, v);
    LoadedPageImage(data, before, img, i, PageDown(v));
    PageDownBounds(v);
    assert !MissingByte(data, ph, PageDown(v), v);
  }

  /** A file with a program header out of bounds, a page needed twice, a byte missing or a segment at a
      non-canonical address never loads. */
  lemma RefusedNeverLoads(data: seq<Byte>, before: PageMap, img: PageMap)
    requires |data| >= HEADER_SIZE && Refused(data, before)
    ensures !Loaded(data, before, img)
  {
    hide HeaderAt, ReadHeader, StackPages, PageImage, SegmentPage, StackPage, NothingElse, FileHolds, Canonical;
  }
}

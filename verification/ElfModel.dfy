/**
 Loading an executable: its headers are read from the image in memory, a zeroed page is mapped for
 every page of every loadable segment, and the segment's bytes are copied through those mappings.
 Every access goes through the page tables of the directory being loaded.
 */
module ElfModel {
  import opened Sizes
  import opened Folding
  import opened VmmModel
  import opened VmmInvariant
  import opened VmmCount
  import opened VmmRuns
  import opened WordBytes
  import opened ElfMemory
  import opened ElfCount

  /** elf_load returns 0, returns -1, or never returns because a store hits a page that is not mapped. */
  datatype Outcome = Loaded | Failed | Faulted

  /** What the outcome says of the page allocations behind it. */
  function EndOf(out: Outcome): Ending
  {
    match out
    case Loaded => Done
    case Failed => MissingFrame
    case Faulted => MissingTable
  }

  const ELF_MAGIC: nat := 0x464C_457F
  const PT_LOAD: nat := 1
  const STACK: FrameNo := 0xB0000

  // ---------------------------------------------------------------- the image

  /** The address k bytes past a base, in 32-bit arithmetic. */
  function At(base: nat, k: nat): Addr { (base + k) % WORD }

  function Field32(x: ByteAccess, m: Machine, pd: FrameNo, base: nat, k: nat): (n: nat)
    ensures n < WORD
  {
    Join(Read(x, m, pd, At(base, k)), Read(x, m, pd, At(base, k + 1)), Read(x, m, pd, At(base, k + 2)),
         Read(x, m, pd, At(base, k + 3)))
  }

  function Field16(x: ByteAccess, m: Machine, pd: FrameNo, base: nat, k: nat): (n: nat)
    ensures n < 0x1_0000
  {
    Read(x, m, pd, At(base, k)) + 0x100 * Read(x, m, pd, At(base, k + 1))
  }

  /** The fields of a program header that the loader reads. */
  datatype Header = Header(kind: Addr, offset: Addr, vaddr: Addr, filesz: Addr, memsz: Addr)

  function Magic(x: ByteAccess, m: Machine, pd: FrameNo, elf: Addr): nat { Field32(x, m, pd, elf, 0) }
  function EntryPoint(x: ByteAccess, m: Machine, pd: FrameNo, elf: Addr): nat { Field32(x, m, pd, elf, 24) }
  function Headers(x: ByteAccess, m: Machine, pd: FrameNo, elf: Addr): Addr { At(elf, Field32(x, m, pd, elf, 28)) }
  function HeaderCount(x: ByteAccess, m: Machine, pd: FrameNo, elf: Addr): (n: nat)
    ensures n < 0x1_0000
  {
    Field16(x, m, pd, elf, 44)
  }

  function HeaderAt(x: ByteAccess, m: Machine, pd: FrameNo, phdrs: Addr, i: nat): Header
  {
    Header(Field32(x, m, pd, phdrs, 32 * i), Field32(x, m, pd, phdrs, 32 * i + 4), Field32(x, m, pd, phdrs, 32 * i + 8),
           Field32(x, m, pd, phdrs, 32 * i + 16), Field32(x, m, pd, phdrs, 32 * i + 20))
  }

  /** The pages of a segment, up to but not including EndPage. */
  function FirstPage(h: Header): FrameNo { h.vaddr / 4096 }
  function EndPage(h: Header): FrameNo { At(h.vaddr, h.memsz + 0xFFF) / 4096 }

  // ---------------------------------------------------------------- the loader

  predicate Mapped(m: Machine, pd: FrameNo, a: Addr) { EntryFor(m, pd, PageOf(a)).flags.present }

  /** Clear virtual page p word by word from word j on; false when a store faults. */
  function ZeroPage(m: Machine, pd: FrameNo, p: FrameNo, j: nat): (Machine, bool)
    requires j <= ENTRIES
    decreases ENTRIES - j
  {
    if j == ENTRIES then (m, true)
    else if !EntryFor(m, pd, p).flags.present then (m, false)
    else ZeroPage(Write(m, EntryFor(m, pd, p).frame, j, ZERO), pd, p, j + 1)
  }

  /** Map and clear the pages from p up to end. */
  function MapPages(m: Machine, pd: FrameNo, p: FrameNo, end: FrameNo): (Machine, Outcome)
    decreases end - p
  {
    if p >= end then (m, Loaded)
    else
      var (m1, f) := AllocIn(m, pd, p, USER_WRITABLE);
      if f == 0 then (m1, Failed)
      else
        var (m2, ok) := ZeroPage(m1, pd, p, 0);
        if !ok then (m2, Faulted) else MapPages(m2, pd, p + 1, end)
  }

  /** Copy bytes j up to n from src to dst; false when an access faults. */
  function CopyBytes(x: ByteAccess, m: Machine, pd: FrameNo, dst: Addr, src: Addr, n: nat, j: nat): (Machine, bool)
    decreases n - j
  {
    if j >= n then (m, true)
    else if !Mapped(m, pd, At(src, j)) || !Mapped(m, pd, At(dst, j)) then (m, false)
    else CopyBytes(x, Store(x, m, pd, At(dst, j), Read(x, m, pd, At(src, j))), pd, dst, src, n, j + 1)
  }

  /** Clear bytes j up to n of dst; false when a store faults. */
  function ClearBytes(x: ByteAccess, m: Machine, pd: FrameNo, dst: Addr, n: nat, j: nat): (Machine, bool)
    decreases n - j
  {
    if j >= n then (m, true)
    else if !Mapped(m, pd, At(dst, j)) then (m, false)
    else ClearBytes(x, Store(x, m, pd, At(dst, j), 0), pd, dst, n, j + 1)
  }

  function LoadSegment(x: ByteAccess, m: Machine, pd: FrameNo, elf: Addr, h: Header): (Machine, Outcome)
  {
    var (m1, out) := MapPages(m, pd, FirstPage(h), EndPage(h));
    if !out.Loaded? then (m1, out)
    else
      var (m2, copied) := CopyBytes(x, m1, pd, h.vaddr, At(elf, h.offset), h.filesz, 0);
      if !copied then (m2, Faulted)
      else
        var (m3, cleared) := ClearBytes(x, m2, pd, h.vaddr, h.memsz, h.filesz);
        (m3, if cleared then Loaded else Faulted)
  }

  type Count = n: nat | n < 0x1_0000

  /** How the loop reads its headers: from memory, anew at every turn. */
  datatype HeaderTable = HeaderTable(count: Machine -> Count, header: (Machine, nat) -> Header)

  function TableAt(x: ByteAccess, pd: FrameNo, elf: Addr, phdrs: Addr): HeaderTable
  {
    HeaderTable((m: Machine) => HeaderCount(x, m, pd, elf), (m: Machine, i: nat) => HeaderAt(x, m, pd, phdrs, i))
  }

  /** The loop over program headers from header i on. */
  function LoadSegments(x: ByteAccess, m: Machine, pd: FrameNo, elf: Addr, table: HeaderTable,
                        i: nat): (Machine, Outcome)
    decreases 0x1_0000 - i
  {
    if i >= table.count(m) then (m, Loaded)
    else
      var h := table.header(m, i);
      if h.kind != PT_LOAD then LoadSegments(x, m, pd, elf, table, i + 1)
      else
        var (m1, out) := LoadSegment(x, m, pd, elf, h);
        if !out.Loaded? then (m1, out) else LoadSegments(x, m1, pd, elf, table, i + 1)
  }

  /** The stack page is cleared at its physical address. */
  function LoadStack(m: Machine, pd: FrameNo): (Machine, Outcome)
  {
    var (m1, f) := AllocIn(m, pd, STACK, USER_WRITABLE);
    if f == 0 then (m1, Failed)
    else
      var (m2, ok) := ZeroPage(m1, pd, f, 0);
      (m2, if ok then Loaded else Faulted)
  }

  /** elf_load. */
  function LoadImage(x: ByteAccess, m: Machine, pd: FrameNo, elf: Addr): (Machine, Outcome)
  {
    if Magic(x, m, pd, elf) != ELF_MAGIC then (m, Failed)
    else
      var (m1, out) := LoadSegments(x, m, pd, elf, TableAt(x, pd, elf, Headers(x, m, pd, elf)), 0);
      if !out.Loaded? then (m1, out) else LoadStack(m1, pd)
  }

  // ---------------------------------------------------------------- pages

  ghost predicate Between(p: nat, q: FrameNo, end: nat) { p <= q < end }

  ghost function PageRange(p: nat, end: nat): set<FrameNo> { set q: FrameNo | Between(p, q, end) }

  /** Every byte of the given pages reads as zero. */
  ghost predicate ZeroReads(x: ByteAccess, m: Machine, pd: FrameNo, pages: set<FrameNo>)
  {
    forall a: Addr :: PageOf(a) in pages ==> Read(x, m, pd, a) == 0
  }

  /** Clearing a page whose frame holds new data clears exactly that frame. */
  lemma {:induction false} ZeroPageClears(o: Origin, m: Machine, own: map<nat, Role>, pages: set<FrameNo>, p: FrameNo,
                                          f: FrameNo, j: nat)
    requires Loading(o, m, own, pages) && IsData(own, f) && f !in o.s.m.used && j <= ENTRIES
    requires EntryFor(m, o.pd, p).flags.present && EntryFor(m, o.pd, p).frame == f
    requires forall k :: 0 <= k < j ==> m.mem[f][k] == ZERO
    ensures ZeroPage(m, o.pd, p, j) == (WriteFrame(m, f, ZeroFrame()), true)
    decreases ENTRIES - j
  {
    if j == ENTRIES {
      assert m.mem[f] == ZeroFrame();
      assert WriteFrame(m, f, ZeroFrame()).mem == m.mem;
    } else {
      var m1 := Write(m, f, j, ZERO);
      assert m1 == WriteFrame(m, f, m1.mem[f]);
      WriteKeepsLoading(o, m, own, pages, f, m1.mem[f]);
      assert IsDir(System(m, o.s.dirs), o.pd);
      ZeroPageClears(o, m1, own, pages, p, f, j + 1);
      assert WriteFrame(m1, f, ZeroFrame()).mem == WriteFrame(m, f, ZeroFrame()).mem;
    }
  }

  /** Clearing the frame of page p: p reads as zero, and the other new pages read as before. */
  lemma ClearedPage(x: ByteAccess, o: Origin, m: Machine, own: map<nat, Role>, pages: set<FrameNo>, p: FrameNo,
                    f: FrameNo)
    requires Lawful(x) && Loading(o, m, own, pages) && f !in o.s.m.used
    requires Labelled(own, f, Page(o.pd, Slot(p), Index(p))) && (p in pages ==> EntryFor(m, o.pd, p).frame == f)
    ensures var r := WriteFrame(m, f, ZeroFrame());
      && Loading(o, r, own, pages) && SameBudget(o.pd, m, r)
      && forall a: Addr :: PageOf(a) in pages ==>
        Read(x, r, o.pd, a) == if PageOf(a) == p then 0 else Read(x, m, o.pd, a)
  {
    var r := WriteFrame(m, f, ZeroFrame());
    WriteKeepsLoading(o, m, own, pages, f, ZeroFrame());
    forall a: Addr | PageOf(a) in pages
      ensures Read(x, r, o.pd, a) == if PageOf(a) == p then 0 else Read(x, m, o.pd, a)
    {
      assert IsDir(System(m, o.s.dirs), o.pd);
      NewPageIsLabelled(o, m, own, pages, PageOf(a));
      if EntryFor(m, o.pd, PageOf(a)).frame == f { PageParts(PageOf(a), p); }
    }
  }

  /** A page that got no table: the first store to it faults. */
  lemma {:induction false} UnmappedPageFaults(m: Machine, pd: FrameNo, p: FrameNo)
    requires !EntryFor(m, pd, p).flags.present
    ensures ZeroPage(m, pd, p, 0) == (m, false)
  {
  }

  /** What mapping and clearing one page has done. */
  ghost predicate PageLoaded(x: ByteAccess, o: Origin, m: Machine, r: Machine, ok: bool, own': map<nat, Role>,
                             pages: set<FrameNo>, p: FrameNo)
  {
    && Loading(o, r, own', if ok then pages + {p} else pages)
    && SameReads(x, m, r, o.pd, pages)
    && (ok ==> ZeroReads(x, r, o.pd, {p}))
    && (!ok ==> Exhausted(r))
  }

  /** Clearing a page that was just mapped. */
  lemma {:induction false} NewPageClears(x: ByteAccess, o: Origin, m: Machine, m1: Machine, own': map<nat, Role>,
                                         pages: set<FrameNo>, p: FrameNo, f: FrameNo)
    requires Lawful(x) && Loading(o, m1, own', pages + {p}) && SameReads(x, m, m1, o.pd, pages) && p !in pages
    requires Labelled(own', f, Page(o.pd, Slot(p), Index(p))) && f !in o.s.m.used
    requires EntryFor(m1, o.pd, p).flags.present && EntryFor(m1, o.pd, p).frame == f
    ensures ZeroPage(m1, o.pd, p, 0).1 && PageLoaded(x, o, m, ZeroPage(m1, o.pd, p, 0).0, true, own', pages, p)
    ensures SameBudget(o.pd, m1, ZeroPage(m1, o.pd, p, 0).0)
  {
    ZeroPageClears(o, m1, own', pages + {p}, p, f, 0);
    ClearedPage(x, o, m1, own', pages + {p}, p, f);
  }

  lemma PageLoads(x: ByteAccess, o: Origin, m: Machine, own: map<nat, Role>, pages: set<FrameNo>, p: FrameNo)
    returns (own': map<nat, Role>)
    requires Lawful(x) && Loading(o, m, own, pages) && p !in pages && !Shared(m, o.pd, Slot(p)) && !Exhausted(m)
    ensures var (m1, f) := AllocIn(m, o.pd, p, USER_WRITABLE);
      var (r, ok) := ZeroPage(m1, o.pd, p, 0);
      f != 0 && PageLoaded(x, o, m, r, ok, own', pages, p) && Spends(o.pd, m, r, EndsMapped(ok), [p])
  {
    own' := AllocKeeps(x, o, m, own, pages, p);
    AllocSpends(o, m, own, pages, p);
    var (m1, f) := AllocIn(m, o.pd, p, USER_WRITABLE);
    if GetsMapped(m, o.pd, p) {
      NewPageClears(x, o, m, m1, own', pages, p, f);
      SpendsSame(o.pd, m, m1, ZeroPage(m1, o.pd, p, 0).0, Done, [p]);
    } else {
      UnmappedPageFaults(m1, o.pd, p);
    }
  }

  /** The pages from p up to end, in order. */
  function PageList(p: FrameNo, end: FrameNo): seq<FrameNo>
    decreases end - p
  {
    if p >= end then [] else [p] + PageList(p + 1, end)
  }

  /** What mapping a run of pages has done when it stops. */
  ghost predicate PagesLoaded(x: ByteAccess, o: Origin, m: Machine, r: Machine, out: Outcome, own': map<nat, Role>,
                              pages: set<FrameNo>, done: set<FrameNo>, all: set<FrameNo>)
  {
    && Loading(o, r, own', done) && pages <= done <= pages + all
    && SameReads(x, m, r, o.pd, pages)
    && (out.Loaded? ==> done == pages + all && ZeroReads(x, r, o.pd, all))
    && (!out.Loaded? ==> Exhausted(r))
  }

  /** One page, then the rest of the run. */
  lemma PageThenRest(x: ByteAccess, o: Origin, m: Machine, m2: Machine, own2: map<nat, Role>, pages: set<FrameNo>,
                     p: FrameNo, end: FrameNo, r: Machine, out: Outcome, own': map<nat, Role>, done: set<FrameNo>)
    requires p < end && PageLoaded(x, o, m, m2, true, own2, pages, p)
    requires PagesLoaded(x, o, m2, r, out, own', pages + {p}, done, PageRange(p + 1, end))
    ensures PagesLoaded(x, o, m, r, out, own', pages, done, PageRange(p, end))
  {
    assert PageRange(p, end) == {p} + PageRange(p + 1, end);
    forall a: Addr | PageOf(a) in pages + {p} ensures Read(x, r, o.pd, a) == Read(x, m2, o.pd, a) {}
  }

  /** Pages from p + 1 on are still free to map once p is. */
  lemma RestIsNew(o: Origin, pages: set<FrameNo>, p: FrameNo, end: FrameNo)
    requires p < end && forall q :: q in PageRange(p, end) ==> q !in pages && !Shared(o.s.m, o.pd, Slot(q))
    ensures p !in pages && !Shared(o.s.m, o.pd, Slot(p))
    ensures forall q :: q in PageRange(p + 1, end) ==> q !in pages + {p} && !Shared(o.s.m, o.pd, Slot(q))
  {
    assert p in PageRange(p, end);
    assert PageRange(p + 1, end) <= PageRange(p, end);
  }

  /** An allocation with no frame free changes nothing. */
  lemma ExhaustedAlloc(m: Machine, pd: FrameNo, p: FrameNo)
    requires Sane(m) && Exhausted(m)
    ensures AllocIn(m, pd, p, USER_WRITABLE) == (m, 0)
  {
    AllocFresh(m);
  }

  /** The run stops where it stands: nothing mapped since, and memory exhausted unless there was nothing to do. */
  lemma RunStops(x: ByteAccess, o: Origin, m: Machine, r: Machine, own': map<nat, Role>, pages: set<FrameNo>,
                 all: set<FrameNo>, out: Outcome)
    requires Loading(o, r, own', pages) && SameReads(x, m, r, o.pd, pages)
    requires if out.Loaded? then all == {} else Exhausted(r)
    ensures PagesLoaded(x, o, m, r, out, own', pages, pages, all)
  {
  }

  lemma {:induction false} MapPagesLoads(x: ByteAccess, o: Origin, m: Machine, own: map<nat, Role>,
                                         pages: set<FrameNo>, p: FrameNo, end: FrameNo)
    returns (own': map<nat, Role>, done: set<FrameNo>)
    requires Lawful(x) && Loading(o, m, own, pages)
    requires forall q :: q in PageRange(p, end) ==> q !in pages && !Shared(o.s.m, o.pd, Slot(q))
    ensures PagesLoaded(x, o, m, MapPages(m, o.pd, p, end).0, MapPages(m, o.pd, p, end).1, own', pages, done,
                        PageRange(p, end))
    ensures Spends(o.pd, m, MapPages(m, o.pd, p, end).0, EndOf(MapPages(m, o.pd, p, end).1), PageList(p, end))
    decreases end - p
  {
    if p >= end {
      assert PageRange(p, end) == {};
      RunStops(x, o, m, m, own, pages, {}, Loaded);
      SpendsNothing(o.pd, m);
      return own, pages;
    }
    RestIsNew(o, pages, p, end);
    if Exhausted(m) {
      ExhaustedAlloc(m, o.pd, p);
      RunStops(x, o, m, m, own, pages, PageRange(p, end), Failed);
      AllocCounts(m);
      SpendsNone(o.pd, m, PageList(p, end));
      return own, pages;
    }
    var (m1, f) := AllocIn(m, o.pd, p, USER_WRITABLE);
    var (m2, ok) := ZeroPage(m1, o.pd, p, 0);
    var own2 := PageLoads(x, o, m, own, pages, p);
    if !ok {
      RunStops(x, o, m, m2, own2, pages, PageRange(p, end), Faulted);
      SpendsAll(o.pd, m, m2, MissingTable, [p], PageList(p + 1, end));
      return own2, pages;
    }
    own', done := MapPagesLoads(x, o, m2, own2, pages + {p}, p + 1, end);
    var r, out := MapPages(m2, o.pd, p + 1, end).0, MapPages(m2, o.pd, p + 1, end).1;
    PageThenRest(x, o, m, m2, own2, pages, p, end, r, out, own', done);
    SpendsThen(o.pd, m, m2, r, EndOf(out), [p], PageList(p + 1, end));
  }

  // ---------------------------------------------------------------- bytes

  /** A byte of the image: mapped, outside the pages to be loaded, in a frame in use that is no directory or table. */
  ghost predicate ImageByte(o: Origin, targets: set<FrameNo>, a: Addr)
  {
    var e := EntryFor(o.s.m, o.pd, PageOf(a));
    PageOf(a) !in targets && e.flags.present && e.frame in o.s.m.used && IsData(o.own, e.frame)
  }

  /** The image is unaltered at every point of a load. */
  lemma ImageKept(x: ByteAccess, o: Origin, m: Machine, own: map<nat, Role>, pages: set<FrameNo>,
                  targets: set<FrameNo>, a: Addr)
    requires Loading(o, m, own, pages) && pages <= targets && ImageByte(o, targets, a)
    ensures Mapped(m, o.pd, a) && Read(x, m, o.pd, a) == Read(x, o.s.m, o.pd, a)
  {
    assert IsDir(o.s, o.pd);
  }

  /** n bytes from dst on, without wrap-around, all in the given pages. */
  ghost predicate WithinPages(dst: Addr, n: nat, pages: set<FrameNo>)
  {
    dst + n <= WORD && forall a: Addr :: dst <= a < dst + n ==> PageOf(a) in pages
  }

  /** The byte k past src belongs to the image and reads as b at the start. */
  ghost predicate FromImage(x: ByteAccess, o: Origin, targets: set<FrameNo>, src: Addr, k: nat, b: Byte)
  {
    ImageByte(o, targets, At(src, k)) && Read(x, o.s.m, o.pd, At(src, k)) == b
  }

  /** The bytes from src on belong to the image and are data. */
  ghost predicate Holds(x: ByteAccess, o: Origin, targets: set<FrameNo>, src: Addr, data: seq<Byte>)
  {
    forall k {:trigger FromImage(x, o, targets, src, k, data[k])} :: 0 <= k < |data| ==>
      FromImage(x, o, targets, src, k, data[k])
  }

  lemma NoWrap(dst: Addr, n: nat, pages: set<FrameNo>, j: nat)
    requires WithinPages(dst, n, pages) && j < n
    ensures At(dst, j) == dst + j && PageOf(At(dst, j)) in pages
  {
  }

  /** Bytes j and on of data stand at dst, in the given pages; the other bytes read as in m. */
  ghost predicate Copied(x: ByteAccess, o: Origin, m: Machine, r: Machine, pages: set<FrameNo>, dst: Addr,
                         data: seq<Byte>, j: nat)
  {
    forall a: Addr {:trigger Read(x, r, o.pd, a)} :: PageOf(a) in pages ==>
      Read(x, r, o.pd, a) == if dst + j <= a < dst + |data| then data[a - dst] else Read(x, m, o.pd, a)
  }

  /** Bytes j up to n of dst, in the given pages, read as zero; the others as in m. */
  ghost predicate Cleared(x: ByteAccess, o: Origin, m: Machine, r: Machine, pages: set<FrameNo>, dst: Addr, n: nat,
                          j: nat)
  {
    forall a: Addr {:trigger Read(x, r, o.pd, a)} :: PageOf(a) in pages ==>
      Read(x, r, o.pd, a) == if dst + j <= a < dst + n then 0 else Read(x, m, o.pd, a)
  }

  /** The only byte of the new pages that differs is the one at a, now b. */
  ghost predicate OneByte(x: ByteAccess, o: Origin, m: Machine, r: Machine, pages: set<FrameNo>, a: Addr, b: Byte)
  {
    forall c: Addr {:trigger Read(x, r, o.pd, c)} :: PageOf(c) in pages ==>
      Read(x, r, o.pd, c) == if c == a then b else Read(x, m, o.pd, c)
  }

  lemma ByteThenRest(x: ByteAccess, o: Origin, m: Machine, m1: Machine, r: Machine, pages: set<FrameNo>, dst: Addr,
                     data: seq<Byte>, j: nat)
    requires j < |data| && dst + |data| <= WORD
    requires OneByte(x, o, m, m1, pages, dst + j, data[j]) && Copied(x, o, m1, r, pages, dst, data, j + 1)
    ensures Copied(x, o, m, r, pages, dst, data, j)
  {
  }

  lemma CopyStep(x: ByteAccess, o: Origin, m: Machine, own: map<nat, Role>, pages: set<FrameNo>, targets: set<FrameNo>,
                 dst: Addr, src: Addr, n: nat, j: nat, b: Byte) returns (m1: Machine)
    requires Lawful(x) && Loading(o, m, own, pages) && pages <= targets && j < n
    requires WithinPages(dst, n, pages) && FromImage(x, o, targets, src, j, b)
    ensures CopyBytes(x, m, o.pd, dst, src, n, j) == CopyBytes(x, m1, o.pd, dst, src, n, j + 1)
    ensures Loading(o, m1, own, pages) && OneByte(x, o, m, m1, pages, dst + j, b) && SameBudget(o.pd, m, m1)
  {
    var a := At(dst, j);
    NoWrap(dst, n, pages, j);
    ImageKept(x, o, m, own, pages, targets, At(src, j));
    assert NewPage(o, m, PageOf(a));
    m1 := Store(x, m, o.pd, a, b);
    StoreKeeps(x, o, m, own, pages, a, b);
  }

  /** Copying bytes of the image puts them at their places in the new pages and changes no other byte there. */
  lemma {:induction false} CopyKeeps(x: ByteAccess, o: Origin, m: Machine, own: map<nat, Role>, pages: set<FrameNo>,
                                     targets: set<FrameNo>, dst: Addr, src: Addr, data: seq<Byte>, j: nat)
    returns (r: Machine)
    requires Lawful(x) && Loading(o, m, own, pages) && pages <= targets && j <= |data|
    requires WithinPages(dst, |data|, pages) && Holds(x, o, targets, src, data)
    ensures CopyBytes(x, m, o.pd, dst, src, |data|, j) == (r, true)
    ensures Loading(o, r, own, pages) && Copied(x, o, m, r, pages, dst, data, j) && SameBudget(o.pd, m, r)
    decreases |data| - j
  {
    r := m;
    if j < |data| {
      assert FromImage(x, o, targets, src, j, data[j]);
      var m1 := CopyStep(x, o, m, own, pages, targets, dst, src, |data|, j, data[j]);
      r := CopyKeeps(x, o, m1, own, pages, targets, dst, src, data, j + 1);
      ByteThenRest(x, o, m, m1, r, pages, dst, data, j);
    }
  }

  /** The bytes j up to n of dst have been cleared, and the machine is r; folded up. */
  ghost predicate Clears(x: ByteAccess, o: Origin, m: Machine, r: Machine, own: map<nat, Role>, pages: set<FrameNo>,
                         dst: Addr, n: nat, j: nat)
  {
    forall z: int {:trigger Unfold(z)} :: Unfold(z) ==>
      && ClearBytes(x, m, o.pd, dst, n, j) == (r, true) && Loading(o, r, own, pages)
      && Cleared(x, o, m, r, pages, dst, n, j) && SameBudget(o.pd, m, r)
  }

  /** Clearing may start or go on; folded up. */
  ghost predicate ClearReady(x: ByteAccess, o: Origin, m: Machine, own: map<nat, Role>, pages: set<FrameNo>, dst: Addr,
                             n: nat)
  {
    forall z: int {:trigger Unfold(z)} :: Unfold(z) ==>
      Lawful(x) && Loading(o, m, own, pages) && WithinPages(dst, n, pages)
  }

  /** Byte j has been cleared, and the machine is m1; folded up. */
  ghost predicate ClearsOne(x: ByteAccess, o: Origin, m: Machine, m1: Machine, pages: set<FrameNo>, dst: Addr, n: nat,
                            j: nat)
    requires dst + j < WORD
  {
    forall z: int {:trigger Unfold(z)} :: Unfold(z) ==>
      && ClearBytes(x, m, o.pd, dst, n, j) == ClearBytes(x, m1, o.pd, dst, n, j + 1)
      && OneByte(x, o, m, m1, pages, dst + j, 0) && SameBudget(o.pd, m, m1)
  }

  lemma ClearStep(x: ByteAccess, o: Origin, m: Machine, own: map<nat, Role>, pages: set<FrameNo>, dst: Addr, n: nat,
                  j: nat)
    returns (m1: Machine)
    requires ClearReady(x, o, m, own, pages, dst, n) && j < n && dst + n <= WORD
    ensures ClearsOne(x, o, m, m1, pages, dst, n, j) && ClearReady(x, o, m1, own, pages, dst, n)
  {
    assert Unfold(0);
    var a := At(dst, j);
    NoWrap(dst, n, pages, j);
    assert NewPage(o, m, PageOf(a));
    m1 := Store(x, m, o.pd, a, 0);
    StoreKeeps(x, o, m, own, pages, a, 0);
  }

  lemma ClearEnds(x: ByteAccess, o: Origin, m: Machine, own: map<nat, Role>, pages: set<FrameNo>, dst: Addr, n: nat)
    requires ClearReady(x, o, m, own, pages, dst, n)
    ensures Clears(x, o, m, m, own, pages, dst, n, n)
  {
    assert Unfold(0);
  }

  lemma ClearThenRest(x: ByteAccess, o: Origin, m: Machine, m1: Machine, r: Machine, own: map<nat, Role>,
                      pages: set<FrameNo>, dst: Addr, n: nat, j: nat)
    requires j < n && dst + n <= WORD
    requires ClearsOne(x, o, m, m1, pages, dst, n, j) && Clears(x, o, m1, r, own, pages, dst, n, j + 1)
    ensures Clears(x, o, m, r, own, pages, dst, n, j)
  {
    assert Unfold(0);
  }

  lemma {:induction false} ClearRun(x: ByteAccess, o: Origin, m: Machine, own: map<nat, Role>, pages: set<FrameNo>,
                                    dst: Addr, n: nat, j: nat)
    returns (r: Machine)
    requires ClearReady(x, o, m, own, pages, dst, n) && j <= n && dst + n <= WORD
    ensures Clears(x, o, m, r, own, pages, dst, n, j)
    decreases n - j
  {
    if j == n {
      r := m;
      ClearEnds(x, o, m, own, pages, dst, n);
    } else {
      var m1 := ClearStep(x, o, m, own, pages, dst, n, j);
      r := ClearRun(x, o, m1, own, pages, dst, n, j + 1);
      ClearThenRest(x, o, m, m1, r, own, pages, dst, n, j);
    }
  }

  /** Clearing bytes of the new pages changes no other byte there. */
  lemma {:induction false} ClearKeeps(x: ByteAccess, o: Origin, m: Machine, own: map<nat, Role>, pages: set<FrameNo>,
                                      dst: Addr, n: nat, j: nat)
    returns (r: Machine)
    requires Lawful(x) && Loading(o, m, own, pages) && j <= n && WithinPages(dst, n, pages)
    ensures ClearBytes(x, m, o.pd, dst, n, j) == (r, true)
    ensures Loading(o, r, own, pages) && Cleared(x, o, m, r, pages, dst, n, j) && SameBudget(o.pd, m, r)
  {
    r := ClearRun(x, o, m, own, pages, dst, n, j);
    assert Unfold(0);
  }

  // ---------------------------------------------------------------- segments

  ghost function SegmentPages(h: Header): set<FrameNo>
  {
    if h.kind == PT_LOAD then PageRange(FirstPage(h), EndPage(h)) else {}
  }

  /** The pages of a segment are those that its addresses overlap. */
  lemma SegmentPagesOverlap(h: Header, q: FrameNo)
    requires h.kind == PT_LOAD && h.vaddr + h.memsz + 0xFFF < WORD
    ensures q in SegmentPages(h) <==> q * 4096 < h.vaddr + h.memsz && h.vaddr < (q + 1) * 4096
  {
    assert q in SegmentPages(h) <==> Between(FirstPage(h), q, EndPage(h));
  }

  /** The pages that loading a header maps, in order. */
  function HeaderPages(h: Header): seq<FrameNo> { if h.kind == PT_LOAD then PageList(FirstPage(h), EndPage(h)) else [] }

  /** The bytes of the file that belong to a segment, as they stand in the image. */
  ghost function FileBytes(x: ByteAccess, m: Machine, pd: FrameNo, elf: Addr, h: Header): seq<Byte>
  {
    seq(h.filesz, k requires 0 <= k < h.filesz => Read(x, m, pd, At(At(elf, h.offset), k)))
  }

  /** The segment fits the address space, its pages are the directory's own, and its bytes are in the image. */
  ghost predicate GoodHeader(x: ByteAccess, o: Origin, targets: set<FrameNo>, elf: Addr, h: Header)
  {
    && h.filesz <= h.memsz && h.vaddr + h.memsz + 0xFFF < WORD
    && SegmentPages(h) <= targets
    && (forall p :: p in SegmentPages(h) ==> !Shared(o.s.m, o.pd, Slot(p)))
    && Holds(x, o, targets, At(elf, h.offset), FileBytes(x, o.s.m, o.pd, elf, h))
  }

  /** Every page of the segment is mapped to a new frame, and reads as the file bytes in place and zeros around them. */
  ghost predicate SegmentLoaded(x: ByteAccess, o: Origin, r: Machine, elf: Addr, h: Header)
  {
    && (forall p :: p in SegmentPages(h) ==> NewPage(o, r, p))
    && forall a: Addr {:trigger Read(x, r, o.pd, a)} :: PageOf(a) in SegmentPages(h) ==>
         Read(x, r, o.pd, a) ==
           if h.vaddr <= a < h.vaddr + h.filesz then FileBytes(x, o.s.m, o.pd, elf, h)[a - h.vaddr] else 0
  }

  /** What loading has done when it stops: on success every page of all is new. */
  ghost predicate Progressed(x: ByteAccess, o: Origin, m: Machine, r: Machine, out: Outcome, own': map<nat, Role>,
                             pages: set<FrameNo>, done: set<FrameNo>, all: set<FrameNo>)
  {
    && Loading(o, r, own', done) && pages <= done <= pages + all
    && SameReads(x, m, r, o.pd, pages)
    && (out.Loaded? ==> done == pages + all)
    && (!out.Loaded? ==> Exhausted(r))
  }

  /** A segment that does not wrap lies within its pages. */
  lemma SegmentSpan(h: Header, pages: set<FrameNo>)
    requires h.kind == PT_LOAD && h.filesz <= h.memsz && h.vaddr + h.memsz + 0xFFF < WORD
    requires SegmentPages(h) <= pages
    ensures WithinPages(h.vaddr, h.memsz, pages) && WithinPages(h.vaddr, h.filesz, pages)
  {
    forall a: Addr | h.vaddr <= a < h.vaddr + h.memsz ensures PageOf(a) in pages {
      assert PageOf(a) in PageRange(FirstPage(h), EndPage(h));
    }
  }

  /** Copying and clearing, once the segment's pages are mapped and zero. */
  lemma SegmentFills(x: ByteAccess, o: Origin, m: Machine, own: map<nat, Role>, pages: set<FrameNo>,
                     targets: set<FrameNo>, elf: Addr, h: Header)
    returns (m2: Machine, r: Machine)
    requires Lawful(x) && Loading(o, m, own, pages) && pages <= targets && h.kind == PT_LOAD
    requires GoodHeader(x, o, targets, elf, h)
    requires SegmentPages(h) <= pages && ZeroReads(x, m, o.pd, SegmentPages(h))
    ensures CopyBytes(x, m, o.pd, h.vaddr, At(elf, h.offset), h.filesz, 0) == (m2, true)
    ensures ClearBytes(x, m2, o.pd, h.vaddr, h.memsz, h.filesz) == (r, true)
    ensures Loading(o, r, own, pages) && SegmentLoaded(x, o, r, elf, h)
    ensures SameReads(x, m, r, o.pd, pages - SegmentPages(h))
    ensures SameBudget(o.pd, m, r)
  {
    SegmentSpan(h, SegmentPages(h));
    SegmentSpan(h, pages);
    var data := FileBytes(x, o.s.m, o.pd, elf, h);
    m2 := CopyKeeps(x, o, m, own, pages, targets, h.vaddr, At(elf, h.offset), data, 0);
    r := ClearKeeps(x, o, m2, own, pages, h.vaddr, h.memsz, h.filesz);
    SegmentReads(x, o, m, m2, r, pages, elf, h, data);
  }

  lemma SegmentReads(x: ByteAccess, o: Origin, m: Machine, m2: Machine, r: Machine, pages: set<FrameNo>, elf: Addr,
                     h: Header, data: seq<Byte>)
    requires |data| == h.filesz && h.filesz <= h.memsz && SegmentPages(h) <= pages
    requires WithinPages(h.vaddr, h.memsz, SegmentPages(h)) && ZeroReads(x, m, o.pd, SegmentPages(h))
    requires Copied(x, o, m, m2, pages, h.vaddr, data, 0) && Cleared(x, o, m2, r, pages, h.vaddr, h.memsz, h.filesz)
    ensures SameReads(x, m, r, o.pd, pages - SegmentPages(h))
    ensures forall a: Addr {:trigger Read(x, r, o.pd, a)} :: PageOf(a) in SegmentPages(h) ==>
      Read(x, r, o.pd, a) == if h.vaddr <= a < h.vaddr + h.filesz then data[a - h.vaddr] else 0
  {
    forall a: Addr | PageOf(a) in pages ensures
      Read(x, r, o.pd, a) == if h.vaddr <= a < h.vaddr + h.filesz then data[a - h.vaddr]
                             else if PageOf(a) in SegmentPages(h) then 0 else Read(x, m, o.pd, a)
    {
      assert Read(x, m2, o.pd, a) ==
        if h.vaddr <= a < h.vaddr + h.filesz then data[a - h.vaddr] else Read(x, m, o.pd, a);
    }
  }

  /** Loading one segment: all of it, or memory is exhausted; earlier segments read as before either way. */
  lemma SegmentLoads(x: ByteAccess, o: Origin, m: Machine, own: map<nat, Role>, pages: set<FrameNo>,
                     targets: set<FrameNo>, elf: Addr, h: Header)
    returns (own': map<nat, Role>, done: set<FrameNo>)
    requires Lawful(x) && Loading(o, m, own, pages) && pages <= targets && h.kind == PT_LOAD
    requires GoodHeader(x, o, targets, elf, h)
    requires SegmentPages(h) !! pages
    ensures var (r, out) := LoadSegment(x, m, o.pd, elf, h);
      && Progressed(x, o, m, r, out, own', pages, done, SegmentPages(h))
      && (out.Loaded? ==> SegmentLoaded(x, o, r, elf, h))
      && Spends(o.pd, m, r, EndOf(out), HeaderPages(h))
  {
    own', done := MapPagesLoads(x, o, m, own, pages, FirstPage(h), EndPage(h));
    var (m1, out) := MapPages(m, o.pd, FirstPage(h), EndPage(h));
    if out.Loaded? {
      var m2, r := SegmentFills(x, o, m1, own', done, targets, elf, h);
      SpendsSame(o.pd, m, m1, r, Done, HeaderPages(h));
    }
  }
}

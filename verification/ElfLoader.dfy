/**
 elf_load as it runs: every byte of the image and of the segments is reached through the current
 directory's page tables, and every page comes from the virtual memory manager.
 */
module ElfLoader {
  import opened VmmModel
  import opened VmmInvariant
  import opened Vmm
  import opened WordBytes
  import opened ElfMemory
  import opened ElfModel
  import opened Elf

  /** The entry that maps a page of the current directory. */
  method EntryOf(vm: AddressSpaces, page: FrameNo) returns (e: Word)
    requires vm.Valid()
    ensures e == EntryFor(vm.Now(), vm.currentDir, page)
  {
    var slot := vm.mem[vm.currentDir][Slot(page)];
    e := if slot.flags.present then vm.mem[slot.frame][Index(page)] else ZERO;
  }

  method ReadByte(x: ByteAccess, vm: AddressSpaces, a: Addr) returns (b: Byte)
    requires vm.Valid()
    ensures b == Read(x, vm.Now(), vm.currentDir, a)
  {
    var e := EntryOf(vm, PageOf(a));
    b := if e.flags.present then x.get(vm.mem[e.frame][WordIn(a)], ByteIn(a)) else 0;
  }

  method ReadField32(x: ByteAccess, vm: AddressSpaces, base: Addr, k: nat) returns (n: Addr)
    requires vm.Valid()
    ensures n == Field32(x, vm.Now(), vm.currentDir, base, k)
  {
    var b0 := ReadByte(x, vm, At(base, k));
    var b1 := ReadByte(x, vm, At(base, k + 1));
    var b2 := ReadByte(x, vm, At(base, k + 2));
    var b3 := ReadByte(x, vm, At(base, k + 3));
    n := Join(b0, b1, b2, b3);
  }

  ghost predicate CountIs(x: ByteAccess, m: Machine, pd: FrameNo, elf: Addr, n: nat) { HeaderCount(x, m, pd, elf) == n }

  ghost predicate HeaderIn(x: ByteAccess, m: Machine, pd: FrameNo, phdrs: Addr, i: nat, h: Header)
  {
    HeaderAt(x, m, pd, phdrs, i) == h
  }

  /** The table reads the headers from memory under pd. */
  ghost predicate Reads(table: HeaderTable, x: ByteAccess, pd: FrameNo, elf: Addr, phdrs: Addr)
  {
    && (forall m: Machine {:trigger CountIs(x, m, pd, elf, table.count(m))} :: CountIs(x, m, pd, elf, table.count(m)))
    && (forall m: Machine, i: nat {:trigger HeaderIn(x, m, pd, phdrs, i, table.header(m, i))} ::
      HeaderIn(x, m, pd, phdrs, i, table.header(m, i)))
  }

  lemma TableReads(x: ByteAccess, pd: FrameNo, elf: Addr, phdrs: Addr)
    ensures Reads(TableAt(x, pd, elf, phdrs), x, pd, elf, phdrs)
  {
  }

  method ReadCount(x: ByteAccess, vm: AddressSpaces, elf: Addr, ghost phdrs: Addr, ghost table: HeaderTable)
    returns (n: nat)
    requires vm.Valid() && Reads(table, x, vm.currentDir, elf, phdrs)
    ensures n == table.count(vm.Now())
  {
    var b0 := ReadByte(x, vm, At(elf, 44));
    var b1 := ReadByte(x, vm, At(elf, 45));
    var low: nat, high: nat := b0, b1;
    n := low + 0x100 * high;
    assert CountIs(x, vm.Now(), vm.currentDir, elf, table.count(vm.Now()));
  }

  method ReadHeader(x: ByteAccess, vm: AddressSpaces, ghost elf: Addr, phdrs: Addr, i: nat, ghost table: HeaderTable)
    returns (h: Header)
    requires vm.Valid() && Reads(table, x, vm.currentDir, elf, phdrs)
    ensures h == table.header(vm.Now(), i)
  {
    var kind := ReadField32(x, vm, phdrs, 32 * i);
    var offset := ReadField32(x, vm, phdrs, 32 * i + 4);
    var vaddr := ReadField32(x, vm, phdrs, 32 * i + 8);
    var filesz := ReadField32(x, vm, phdrs, 32 * i + 16);
    var memsz := ReadField32(x, vm, phdrs, 32 * i + 20);
    h := Header(kind, offset, vaddr, filesz, memsz);
    assert HeaderIn(x, vm.Now(), vm.currentDir, phdrs, i, table.header(vm.Now(), i));
  }

  /** Store one byte; false when it faults. */
  method StoreByte(x: ByteAccess, vm: AddressSpaces, a: Addr, b: Byte) returns (ok: bool)
    requires vm.Valid()
    modifies vm`mem
    ensures vm.Valid() && ok == Mapped(old(vm.Now()), vm.currentDir, a)
    ensures vm.Now() == if ok then Store(x, old(vm.Now()), vm.currentDir, a, b) else old(vm.Now())
  {
    var e := EntryOf(vm, PageOf(a));
    ok := e.flags.present;
    if ok {
      vm.SetWord(e.frame, WordIn(a), x.set_(vm.mem[e.frame][WordIn(a)], ByteIn(a), b));
    }
  }

  /** Clear a virtual page word by word. */
  method ClearPage(vm: AddressSpaces, page: FrameNo) returns (ok: bool)
    requires vm.Valid()
    modifies vm`mem
    ensures vm.Valid() && (vm.Now(), ok) == ZeroPage(old(vm.Now()), vm.currentDir, page, 0)
  {
    var j := 0;
    while j < ENTRIES
      invariant j <= ENTRIES && vm.Valid()
      invariant ZeroPage(vm.Now(), vm.currentDir, page, j) == ZeroPage(old(vm.Now()), vm.currentDir, page, 0)
    {
      var e := EntryOf(vm, page);
      if !e.flags.present { return false; }
      vm.SetWord(e.frame, j, ZERO);
      j := j + 1;
    }
    ok := true;
  }

  /** vmm_alloc_page for a user page, by page number. */
  method AllocUser(vm: AddressSpaces, page: FrameNo) returns (f: FrameNo)
    requires vm.Valid()
    modifies vm`mem, vm.pmm`freeCount, vm.pmm`used, vm.pmm.bitmap
    ensures vm.Valid() && (vm.Now(), f) == AllocIn(old(vm.Now()), vm.currentDir, page, USER_WRITABLE)
  {
    f := vm.AllocPage(page * 4096, USER_WRITABLE);
  }

  ghost predicate PagesGive(pd: FrameNo, end: FrameNo, m: Machine, p: nat, r: (Machine, Outcome))
  {
    p < 0x10_0000 ==> MapPages(m, pd, p, end) == r
  }

  /** The rest of the loop over pages is the one of the model. */
  ghost predicate PagesRest(rest: LoopRest, pd: FrameNo, end: FrameNo)
  {
    forall m: Machine, p: nat {:trigger PagesGive(pd, end, m, p, rest(m, p))} :: PagesGive(pd, end, m, p, rest(m, p))
  }

  lemma PagesEnd(rest: LoopRest, pd: FrameNo, end: FrameNo, m: Machine, p: FrameNo)
    requires PagesRest(rest, pd, end) && p >= end
    ensures rest(m, p) == (m, Loaded)
  {
    assert PagesGive(pd, end, m, p, rest(m, p));
  }

  lemma {:induction false} PagesTurn(rest: LoopRest, pd: FrameNo, end: FrameNo, m: Machine, p: FrameNo, m1: Machine,
                                     f: FrameNo, m2: Machine, ok: bool)
    requires PagesRest(rest, pd, end) && p < end
    requires (m1, f) == AllocIn(m, pd, p, USER_WRITABLE) && (m2, ok) == ZeroPage(m1, pd, p, 0)
    ensures rest(m, p) == if f == 0 then (m1, Failed) else if !ok then (m2, Faulted) else rest(m2, p + 1)
  {
    assert PagesGive(pd, end, m, p, rest(m, p)) && PagesGive(pd, end, m2, p + 1, rest(m2, p + 1));
  }

  /** Map a page and clear it. */
  method MapCleared(vm: AddressSpaces, page: FrameNo, ghost end: FrameNo, ghost rest: LoopRest) returns (out: Outcome)
    requires vm.Valid() && page < end && PagesRest(rest, vm.currentDir, end)
    modifies vm`mem, vm.pmm`freeCount, vm.pmm`used, vm.pmm.bitmap
    ensures vm.Valid() && rest(old(vm.Now()), page) == if out.Loaded? then rest(vm.Now(), page + 1) else (vm.Now(), out)
  {
    ghost var m := vm.Now();
    var f := AllocUser(vm, page);
    ghost var m1 := vm.Now();
    if f == 0 {
      PagesTurn(rest, vm.currentDir, end, m, page, m1, f, ZeroPage(m1, vm.currentDir, page, 0).0,
                ZeroPage(m1, vm.currentDir, page, 0).1);
      return Failed;
    }
    var ok := ClearPage(vm, page);
    PagesTurn(rest, vm.currentDir, end, m, page, m1, f, vm.Now(), ok);
    out := if ok then Loaded else Faulted;
  }

  /** The loop over the pages of a segment. */
  method MapLoop(vm: AddressSpaces, first: FrameNo, end: FrameNo, ghost rest: LoopRest) returns (out: Outcome)
    requires vm.Valid() && PagesRest(rest, vm.currentDir, end)
    modifies vm`mem, vm.pmm`freeCount, vm.pmm`used, vm.pmm.bitmap
    ensures vm.Valid() && (vm.Now(), out) == rest(old(vm.Now()), first)
  {
    var page: FrameNo := first;
    while page < end
      invariant vm.Valid() && rest(vm.Now(), page) == rest(old(vm.Now()), first)
    {
      out := MapCleared(vm, page, end, rest);
      if !out.Loaded? { return; }
      page := page + 1;
    }
    PagesEnd(rest, vm.currentDir, end, vm.Now(), page);
    out := Loaded;
  }

  /** Map and clear the pages of a segment. */
  method MapSegment(vm: AddressSpaces, first: FrameNo, end: FrameNo) returns (out: Outcome)
    requires vm.Valid()
    modifies vm`mem, vm.pmm`freeCount, vm.pmm`used, vm.pmm.bitmap
    ensures vm.Valid() && (vm.Now(), out) == MapPages(old(vm.Now()), vm.currentDir, first, end)
  {
    ghost var pd := vm.currentDir;
    ghost var rest: LoopRest := (m: Machine, p: nat) => if p < 0x10_0000 then MapPages(m, pd, p, end) else (m, Loaded);
    out := MapLoop(vm, first, end, rest);
  }

  /** Copy a segment's file bytes. */
  method CopySegment(x: ByteAccess, vm: AddressSpaces, dst: Addr, src: Addr, n: nat) returns (ok: bool)
    requires vm.Valid()
    modifies vm`mem
    ensures vm.Valid() && (vm.Now(), ok) == CopyBytes(x, old(vm.Now()), vm.currentDir, dst, src, n, 0)
  {
    var j := 0;
    while j < n
      invariant j <= n && vm.Valid()
      invariant CopyBytes(x, vm.Now(), vm.currentDir, dst, src, n, j) ==
        CopyBytes(x, old(vm.Now()), vm.currentDir, dst, src, n, 0)
    {
      var e := EntryOf(vm, PageOf(At(src, j)));
      if !e.flags.present { return false; }
      var b := ReadByte(x, vm, At(src, j));
      var stored := StoreByte(x, vm, At(dst, j), b);
      if !stored { return false; }
      j := j + 1;
    }
    ok := true;
  }

  /** Clear the bytes of a segment past those of the file. */
  method ClearSegment(x: ByteAccess, vm: AddressSpaces, dst: Addr, from: nat, n: nat) returns (ok: bool)
    requires vm.Valid()
    modifies vm`mem
    ensures vm.Valid() && (vm.Now(), ok) == ClearBytes(x, old(vm.Now()), vm.currentDir, dst, n, from)
  {
    var j := from;
    while j < n
      invariant vm.Valid()
      invariant ClearBytes(x, vm.Now(), vm.currentDir, dst, n, j) ==
        ClearBytes(x, old(vm.Now()), vm.currentDir, dst, n, from)
    {
      var stored := StoreByte(x, vm, At(dst, j), 0);
      if !stored { return false; }
      j := j + 1;
    }
    ok := true;
  }

  /** One turn of the loop over program headers. */
  method LoadOne(x: ByteAccess, vm: AddressSpaces, elf: Addr, h: Header) returns (out: Outcome)
    requires vm.Valid()
    modifies vm`mem, vm.pmm`freeCount, vm.pmm`used, vm.pmm.bitmap
    ensures vm.Valid() && (vm.Now(), out) == LoadSegment(x, old(vm.Now()), vm.currentDir, elf, h)
  {
    out := MapSegment(vm, FirstPage(h), EndPage(h));
    if !out.Loaded? { return; }
    var copied := CopySegment(x, vm, h.vaddr, At(elf, h.offset), h.filesz);
    if !copied { return Faulted; }
    var cleared := ClearSegment(x, vm, h.vaddr, h.filesz, h.memsz);
    out := if cleared then Loaded else Faulted;
  }

  lemma SegmentsTurn(rest: LoopRest, x: ByteAccess, pd: FrameNo, elf: Addr, table: HeaderTable, m: Machine, i: nat)
    requires SegmentsRest(rest, x, pd, elf, table)
    ensures rest(m, i) ==
      if i >= table.count(m) then (m, Loaded)
      else if table.header(m, i).kind != PT_LOAD then rest(m, i + 1)
      else
        var (m1, out) := LoadSegment(x, m, pd, elf, table.header(m, i));
        if !out.Loaded? then (m1, out) else rest(m1, i + 1)
  {
    assert SegmentsGive(x, pd, elf, table, m, i, rest(m, i));
    assert SegmentsGive(x, pd, elf, table, m, i + 1, rest(m, i + 1));
    var m1 := LoadSegment(x, m, pd, elf, table.header(m, i)).0;
    assert SegmentsGive(x, pd, elf, table, m1, i + 1, rest(m1, i + 1));
  }

  /** One turn of the loop over program headers. */
  method LoadTurn(x: ByteAccess, vm: AddressSpaces, elf: Addr, phdrs: Addr, i: nat, ghost table: HeaderTable,
                  ghost rest: LoopRest)
    returns (out: Outcome)
    requires vm.Valid() && Reads(table, x, vm.currentDir, elf, phdrs)
    requires SegmentsRest(rest, x, vm.currentDir, elf, table)
    requires i < table.count(vm.Now())
    modifies vm`mem, vm.pmm`freeCount, vm.pmm`used, vm.pmm.bitmap
    ensures vm.Valid() && rest(old(vm.Now()), i) == if out.Loaded? then rest(vm.Now(), i + 1) else (vm.Now(), out)
  {
    SegmentsTurn(rest, x, vm.currentDir, elf, table, vm.Now(), i);
    var h := ReadHeader(x, vm, elf, phdrs, i, table);
    out := Loaded;
    if h.kind == PT_LOAD { out := LoadOne(x, vm, elf, h); }
  }

  /** The loop over program headers, which are read anew at every turn. */
  method LoadLoop(x: ByteAccess, vm: AddressSpaces, elf: Addr, phdrs: Addr, ghost table: HeaderTable,
                  ghost rest: LoopRest)
    returns (out: Outcome)
    requires vm.Valid() && Reads(table, x, vm.currentDir, elf, phdrs)
    requires SegmentsRest(rest, x, vm.currentDir, elf, table)
    modifies vm`mem, vm.pmm`freeCount, vm.pmm`used, vm.pmm.bitmap
    ensures vm.Valid() && (vm.Now(), out) == rest(old(vm.Now()), 0)
  {
    var i := 0;
    var n := ReadCount(x, vm, elf, phdrs, table);
    while i < n
      invariant vm.Valid() && n == table.count(vm.Now()) && i <= 0x1_0000
      invariant rest(vm.Now(), i) == rest(old(vm.Now()), 0)
      decreases 0x1_0000 - i
    {
      out := LoadTurn(x, vm, elf, phdrs, i, table, rest);
      if !out.Loaded? { return; }
      i := i + 1;
      n := ReadCount(x, vm, elf, phdrs, table);
    }
    SegmentsTurn(rest, x, vm.currentDir, elf, table, vm.Now(), i);
    out := Loaded;
  }

  /** All segments of the image. */
  method LoadAll(x: ByteAccess, vm: AddressSpaces, elf: Addr, phdrs: Addr, ghost table: HeaderTable)
    returns (out: Outcome)
    requires vm.Valid() && Reads(table, x, vm.currentDir, elf, phdrs)
    modifies vm`mem, vm.pmm`freeCount, vm.pmm`used, vm.pmm.bitmap
    ensures vm.Valid() && (vm.Now(), out) == LoadSegments(x, old(vm.Now()), vm.currentDir, elf, table, 0)
  {
    ghost var pd := vm.currentDir;
    ghost var rest: LoopRest := (m: Machine, i: nat) => LoadSegments(x, m, pd, elf, table, i);
    out := LoadLoop(x, vm, elf, phdrs, table, rest);
  }

  /** The stack page, cleared at its physical address. */
  method MapStack(vm: AddressSpaces) returns (out: Outcome)
    requires vm.Valid()
    modifies vm`mem, vm.pmm`freeCount, vm.pmm`used, vm.pmm.bitmap
    ensures vm.Valid() && (vm.Now(), out) == LoadStack(old(vm.Now()), vm.currentDir)
  {
    var f := AllocUser(vm, STACK);
    ghost var m := vm.Now();
    if f == 0 { return Failed; }
    var ok := ClearPage(vm, f);
    ghost var r := vm.Now();
    assert (r, ok) == ZeroPage(m, vm.currentDir, f, 0);
    out := if ok then Loaded else Faulted;
  }

  /** elf_load. */
  method Load(x: ByteAccess, vm: AddressSpaces, elf: Addr) returns (out: Outcome, entry: nat, stackTop: nat)
    requires vm.Valid()
    modifies vm`mem, vm.pmm`freeCount, vm.pmm`used, vm.pmm.bitmap
    ensures vm.Valid() && (vm.Now(), out) == LoadImage(x, old(vm.Now()), vm.currentDir, elf)
    ensures out.Loaded? ==> entry == EntryPoint(x, old(vm.Now()), vm.currentDir, elf) && stackTop == (STACK + 1) * 4096
  {
    entry, stackTop := 0, 0;
    var magic := ReadField32(x, vm, elf, 0);
    if magic != ELF_MAGIC { out := Failed; return; }
    entry := ReadField32(x, vm, elf, 24);
    var phoff := ReadField32(x, vm, elf, 28);
    TableReads(x, vm.currentDir, elf, At(elf, phoff));
    out := LoadAll(x, vm, elf, At(elf, phoff), TableAt(x, vm.currentDir, elf, At(elf, phoff)));
    if !out.Loaded? { return; }
    out := MapStack(vm);
    if out.Loaded? { stackTop := 0xB000_1000; }
  }

  /** A load with the machine's byte order keeps the promises of LoadIsFaithful for every well-formed image. */
  method LoadElf(vm: AddressSpaces, elf: Addr, ghost o: Origin, ghost targets: set<FrameNo>, ghost hs: seq<Header>)
    returns (out: Outcome, entry: nat, stackTop: nat, ghost own': map<nat, Role>, ghost done: set<FrameNo>)
    requires vm.Valid() && o.s.m == vm.Now() && o.pd == vm.currentDir && o.pd in o.s.dirs && Inv(o.s, o.own)
    requires GoodImage(LITTLE_ENDIAN, o, targets, elf, hs)
    modifies vm`mem, vm.pmm`freeCount, vm.pmm`used, vm.pmm.bitmap
    ensures vm.Valid() && Loading(o, vm.Now(), own', done) && done <= targets
    ensures forall a: Addr :: ImageByte(o, targets, a) ==>
      Read(LITTLE_ENDIAN, vm.Now(), o.pd, a) == Read(LITTLE_ENDIAN, o.s.m, o.pd, a)
    ensures if IsElf(LITTLE_ENDIAN, o, elf) then Verdict(LITTLE_ENDIAN, o, vm.Now(), out, elf, hs)
      else out.Failed? && vm.Now() == o.s.m
    ensures out.Loaded? ==>
      Usable(o, vm.Now(), hs) && entry == Bytes32(LITTLE_ENDIAN, o.s.m, o.pd, elf + 24) && stackTop == 0xB000_1000
  {
    LittleEndianIsLawful();
    own', done := LoadIsFaithful(LITTLE_ENDIAN, o, targets, elf, hs);
    EntryPointStands(LITTLE_ENDIAN, o.s.m, o.pd, elf);
    out, entry, stackTop := Load(LITTLE_ENDIAN, vm, elf);
  }
}

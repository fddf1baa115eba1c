/**
 A small system with an executable in memory: one loadable segment of one page. With four frames
 free it loads completely; with three it is reported as loaded but has no stack.
 */
module ElfExample {
  import opened Sizes
  import opened Pmm
  import opened VmmModel
  import opened VmmInvariant
  import opened VmmCount
  import opened Vmm
  import opened WordBytes
  import opened ElfMemory
  import opened ElfCount
  import opened ElfModel
  import opened Elf

  // ---------------------------------------------------------------- words as fields

  lemma JoinOfBytes(n: nat)
    requires n < WORD
    ensures Join(GetByte(n, 0), GetByte(n, 1), GetByte(n, 2), GetByte(n, 3)) == n
  {
    var a := n / 0x100;
    var b := a / 0x100;
    assert n == 0x100 * a + n % 0x100 && a == 0x100 * b + a % 0x100 && b == 0x100 * (b / 0x100) + b % 0x100;
    assert n / 0x1_0000 == b && n / 0x100_0000 == b / 0x100;
  }

  /** Address a is byte i of word w of the page. */
  ghost predicate InWord(a: Addr, page: FrameNo, w: nat, i: nat)
  {
    PageOf(a) == page && WordIn(a) == w && ByteIn(a) == i
  }

  lemma GetIsByte(w: Word, n: nat, i: nat)
    requires i < 4 && n == Value(w) && n < WORD
    ensures LITTLE_ENDIAN.get(w, i) == GetByte(n, i)
  {
    ByteOfValue(w, n, i);
  }

  lemma ReadIsGet(x: ByteAccess, m: Machine, pd: FrameNo, a: Addr, page: FrameNo, w: nat, i: nat)
    requires w < ENTRIES && i < 4 && InWord(a, page, w, i) && EntryFor(m, pd, page).flags.present
    ensures Read(x, m, pd, a) == x.get(m.mem[EntryFor(m, pd, page).frame][w], i)
  {
  }

  lemma ReadIsByte(m: Machine, pd: FrameNo, a: Addr, page: FrameNo, w: nat, i: nat, n: nat)
    requires w < ENTRIES && i < 4 && InWord(a, page, w, i) && EntryFor(m, pd, page).flags.present
    requires n == Value(m.mem[EntryFor(m, pd, page).frame][w]) && n < WORD
    ensures Read(LITTLE_ENDIAN, m, pd, a) == GetByte(n, i)
  {
    ReadIsGet(LITTLE_ENDIAN, m, pd, a, page, w, i);
    GetIsByte(m.mem[EntryFor(m, pd, page).frame][w], n, i);
  }

  lemma FieldFromBytes(x: ByteAccess, m: Machine, pd: FrameNo, base: Addr, k: nat, n: nat)
    requires n < WORD
    requires Read(x, m, pd, At(base, k)) == GetByte(n, 0) && Read(x, m, pd, At(base, k + 1)) == GetByte(n, 1)
    requires Read(x, m, pd, At(base, k + 2)) == GetByte(n, 2) && Read(x, m, pd, At(base, k + 3)) == GetByte(n, 3)
    ensures Field32(x, m, pd, base, k) == n
    ensures Field16(x, m, pd, base, k) == n % 0x1_0000
  {
    JoinOfBytes(n);
    LowHalf(n);
  }

  lemma LowHalf(n: nat)
    requires n < WORD
    ensures n % 0x1_0000 == n % 0x100 + 0x100 * (n / 0x100 % 0x100)
  {
    var a := n / 0x100;
    assert n == 0x1_0000 * (a / 0x100) + (0x100 * (a % 0x100) + n % 0x100);
  }

  /** Four consecutive bytes of one mapped word make up its value. */
  lemma FieldIsWord(m: Machine, pd: FrameNo, base: Addr, k: nat, page: FrameNo, w: nat, n: nat)
    requires w < ENTRIES && EntryFor(m, pd, page).flags.present && n == Value(m.mem[EntryFor(m, pd, page).frame][w])
    requires n < WORD
    requires InWord(At(base, k), page, w, 0) && InWord(At(base, k + 1), page, w, 1)
    requires InWord(At(base, k + 2), page, w, 2) && InWord(At(base, k + 3), page, w, 3)
    ensures Field32(LITTLE_ENDIAN, m, pd, base, k) == n && Field16(LITTLE_ENDIAN, m, pd, base, k) == n % 0x1_0000
  {
    ReadIsByte(m, pd, At(base, k), page, w, 0, n);
    ReadIsByte(m, pd, At(base, k + 1), page, w, 1, n);
    ReadIsByte(m, pd, At(base, k + 2), page, w, 2, n);
    ReadIsByte(m, pd, At(base, k + 3), page, w, 3, n);
    FieldFromBytes(LITTLE_ENDIAN, m, pd, base, k, n);
  }

  // ---------------------------------------------------------------- the system

  const ELF_BASE: Addr := 0x5000
  const HEADERS_BASE: Addr := 0x5034
  const HEADER: Header := Header(1, 84, 0x4000_0000, 4, 8)

  /** File header, one program header, and four bytes of the segment, word by word. */
  function ImageWord(w: nat): (n: nat)
    ensures n < WORD
  {
    match w
    case 0 => 0x464C_457F   // e_ident
    case 6 => 0x4000_0000   // e_entry
    case 7 => 52            // e_phoff
    case 11 => 1            // e_phnum
    case 13 => 1            // p_type
    case 14 => 84           // p_offset
    case 15 => 0x4000_0000  // p_vaddr
    case 17 => 4            // p_filesz
    case 18 => 8            // p_memsz
    case 21 => 0x1234_5678
    case _ => 0
  }

  ghost function ImageFrame(): Frame { seq(1024, w requires 0 <= w < 1024 => WordOf(ImageWord(w))) }

  /**
   Kernel directory 1 with identity table 2, a space 3 that shares it, the image in frame 5; the last frames are free.
   */
  ghost function SmallOrigin(free: nat): Origin
    requires free <= 10
  {
    var identity: Frame := seq(1024, k requires 0 <= k < 1024 => if k < 16 then Word(k, RWU) else ZERO);
    var dir: Frame := ZeroFrame()[0 := Word(2, RWU)];
    var mem: Memory := Blank()[1 := dir][2 := identity][3 := dir][5 := ImageFrame()];
    Origin(System(Machine(mem, Run(0, 16 - free), 16, 1), {3}), map[1 := KernelDir, 2 := KernelTable(0), 3 := Dir], 3)
  }

  ghost function Targets(): set<FrameNo> { {0x4_0000, STACK} }

  lemma SmallOriginIsOwned(free: nat)
    requires free <= 10
    ensures var o := SmallOrigin(free); Inv(o.s, o.own) && o.pd in o.s.dirs
  {
    var o := SmallOrigin(free);
    assert forall i :: 0 <= i < ENTRIES ==> SlotOk(o.s.m, o.own, 3, i);
    assert DirOk(o.s.m, o.own, 3) && PagesOk(o.s.m, o.own, 3);
  }

  lemma SmallEntries(free: nat, p: FrameNo)
    requires free <= 10 && p < 16
    ensures EntryFor(SmallOrigin(free).s.m, 3, p) == Word(p, RWU)
  {
    assert Slot(p) == 0 && Index(p) == p;
  }

  lemma {:induction false} FreeAbove(n: nat, total: nat)
    requires n <= total
    ensures |FreeSet(Run(0, n), total)| == total - n
  {
    RunSize(n, total - n);
    assert FreeSet(Run(0, n), total) == Run(n, total - n);
  }

  lemma SmallSlots(free: nat)
    requires free <= 10
    ensures PresentSlots(SmallOrigin(free).s.m, 3) == {0}
  {
    assert SmallOrigin(free).s.m.mem[3] == ZeroFrame()[0 := Word(2, RWU)];
  }

  lemma SmallCounts(free: nat)
    requires free <= 10
    ensures Free(SmallOrigin(free).s.m) == free
  {
    FreeAbove(16 - free, 16);
  }

  // ---------------------------------------------------------------- reading the image

  lemma InImage(k: nat)
    requires k < 4096
    ensures InWord(At(ELF_BASE, k), 5, k / 4, k % 4)
  {
  }

  lemma InHeaders(k: nat)
    requires k < 4044
    ensures At(HEADERS_BASE, k) == At(ELF_BASE, 52 + k)
  {
  }

  lemma WordBytesInImage(w: nat)
    requires w < ENTRIES
    ensures InWord(At(ELF_BASE, 4 * w), 5, w, 0) && InWord(At(ELF_BASE, 4 * w + 1), 5, w, 1)
    ensures InWord(At(ELF_BASE, 4 * w + 2), 5, w, 2) && InWord(At(ELF_BASE, 4 * w + 3), 5, w, 3)
  {
    InImage(4 * w);
    InImage(4 * w + 1);
    InImage(4 * w + 2);
    InImage(4 * w + 3);
  }

  lemma ValueOfWord(n: nat)
    requires n < WORD
    ensures Value(WordOf(n)) == n
  {
    WordRoundTrip(ZERO, n);
  }

  lemma SmallFrame(free: nat)
    requires free <= 10
    ensures SmallOrigin(free).s.m.mem[5] == ImageFrame()
  {
  }

  lemma ImageValue(frame: Frame, w: nat)
    requires w < ENTRIES && frame == ImageFrame()
    ensures Value(frame[w]) == ImageWord(w)
  {
    ValueOfWord(ImageWord(w));
  }

  lemma ImageField(m: Machine, w: nat, n: nat)
    requires w < ENTRIES && EntryFor(m, 3, 5).flags.present && EntryFor(m, 3, 5).frame == 5
    requires n == Value(m.mem[5][w]) && n < WORD
    ensures Field32(LITTLE_ENDIAN, m, 3, ELF_BASE, 4 * w) == n
    ensures Field16(LITTLE_ENDIAN, m, 3, ELF_BASE, 4 * w) == n % 0x1_0000
  {
    WordBytesInImage(w);
    FieldIsWord(m, 3, ELF_BASE, 4 * w, 5, w, n);
  }

  lemma FileField(free: nat, w: nat)
    requires free <= 10 && w < ENTRIES
    ensures Field32(LITTLE_ENDIAN, SmallOrigin(free).s.m, 3, ELF_BASE, 4 * w) == ImageWord(w)
    ensures Field16(LITTLE_ENDIAN, SmallOrigin(free).s.m, 3, ELF_BASE, 4 * w) == ImageWord(w) % 0x1_0000
  {
    SmallEntries(free, 5);
    SmallFrame(free);
    ImageValue(SmallOrigin(free).s.m.mem[5], w);
    ImageField(SmallOrigin(free).s.m, w, ImageWord(w));
  }

  /** Word w of the image, read as a field. */
  ghost predicate FieldIs(x: ByteAccess, m: Machine, w: nat)
    requires w < ENTRIES
  {
    Field32(x, m, 3, ELF_BASE, 4 * w) == ImageWord(w) && Field16(x, m, 3, ELF_BASE, 4 * w) == ImageWord(w) % 0x1_0000
  }

  /** The image is where the loader reads it. */
  ghost predicate ImageAt(x: ByteAccess, m: Machine)
  {
    forall w {:trigger FieldIs(x, m, w)} :: 0 <= w < ENTRIES ==> FieldIs(x, m, w)
  }

  lemma SmallImage(free: nat)
    requires free <= 10
    ensures ImageAt(LITTLE_ENDIAN, SmallOrigin(free).s.m)
  {
    forall w | 0 <= w < ENTRIES ensures FieldIs(LITTLE_ENDIAN, SmallOrigin(free).s.m, w) { FileField(free, w); }
  }

  lemma SameField(x: ByteAccess, m: Machine, k: nat)
    requires k < 4040
    ensures Field32(x, m, 3, HEADERS_BASE, k) == Field32(x, m, 3, ELF_BASE, 52 + k)
  {
    InHeaders(k);
    InHeaders(k + 1);
    InHeaders(k + 2);
    InHeaders(k + 3);
  }

  lemma HeaderField(x: ByteAccess, m: Machine, w: nat)
    requires ImageAt(x, m) && w < 8
    ensures Field32(x, m, 3, HEADERS_BASE, 4 * w) == ImageWord(13 + w)
  {
    SameField(x, m, 4 * w);
    assert FieldIs(x, m, 13 + w);
  }

  lemma NamedField(x: ByteAccess, m: Machine, w: nat, k: nat, n: nat)
    requires ImageAt(x, m) && w < 8 && k == 4 * w && n == ImageWord(13 + w)
    ensures Field32(x, m, 3, HEADERS_BASE, k) == n
  {
    HeaderField(x, m, w);
  }

  lemma HeaderFromFields(x: ByteAccess, m: Machine, phdrs: Addr, kind: Addr, offset: Addr, vaddr: Addr, filesz: Addr,
                         memsz: Addr)
    requires Field32(x, m, 3, phdrs, 0) == kind && Field32(x, m, 3, phdrs, 4) == offset
    requires Field32(x, m, 3, phdrs, 8) == vaddr
    requires Field32(x, m, 3, phdrs, 16) == filesz && Field32(x, m, 3, phdrs, 20) == memsz
    ensures HeaderAt(x, m, 3, phdrs, 0) == Header(kind, offset, vaddr, filesz, memsz)
  {
  }

  lemma ReadHeaders(x: ByteAccess, m: Machine)
    requires ImageAt(x, m)
    ensures HeaderAt(x, m, 3, HEADERS_BASE, 0) == HEADER
  {
    NamedField(x, m, 0, 0, 1);
    NamedField(x, m, 1, 4, 84);
    NamedField(x, m, 2, 8, 0x4000_0000);
    NamedField(x, m, 4, 16, 4);
    NamedField(x, m, 5, 20, 8);
    HeaderFromFields(x, m, HEADERS_BASE, 1, 84, 0x4000_0000, 4, 8);
  }

  lemma NamedFileField(x: ByteAccess, m: Machine, w: nat, k: nat, n: nat)
    requires ImageAt(x, m) && w < ENTRIES && k == 4 * w && n == ImageWord(w)
    ensures Field32(x, m, 3, ELF_BASE, k) == n && Field16(x, m, 3, ELF_BASE, k) == n % 0x1_0000
  {
    assert FieldIs(x, m, w);
  }

  lemma ReadMagic(x: ByteAccess, m: Machine)
    requires ImageAt(x, m)
    ensures Magic(x, m, 3, ELF_BASE) == ELF_MAGIC
  {
    NamedFileField(x, m, 0, 0, ELF_MAGIC);
  }

  lemma ReadHeadersBase(x: ByteAccess, m: Machine)
    requires ImageAt(x, m)
    ensures Headers(x, m, 3, ELF_BASE) == HEADERS_BASE
  {
    NamedFileField(x, m, 7, 28, 52);
  }

  lemma ReadCount(x: ByteAccess, m: Machine)
    requires ImageAt(x, m)
    ensures HeaderCount(x, m, 3, ELF_BASE) == 1
  {
    NamedFileField(x, m, 11, 44, 1);
  }

  // ---------------------------------------------------------------- the image is good

  lemma ImageByteAt(free: nat, k: nat)
    requires free <= 10 && k < 4096
    ensures ImageByte(SmallOrigin(free), Targets(), At(ELF_BASE, k))
  {
    InImage(k);
    SmallEntries(free, 5);
  }

  lemma SegmentPagesOfHeader()
    ensures SegmentPages(HEADER) == {0x4_0000} && HeaderPages(HEADER) == [0x4_0000]
    ensures Slot(0x4_0000) == 256 && Slot(STACK) == 704
  {
    assert FirstPage(HEADER) == 0x4_0000 && EndPage(HEADER) == 0x4_0001;
    assert PageList(0x4_0001, 0x4_0001) == [];
  }

  lemma InFile(k: nat)
    requires k < 4
    ensures At(At(ELF_BASE, 84), k) == At(ELF_BASE, 84 + k)
  {
  }

  /** The header is good in any system where its slot is absent and its bytes are in the image. */
  lemma GoodHeaderIn(x: ByteAccess, o: Origin)
    requires !o.s.m.mem[o.pd][256].flags.present
    requires forall k: nat {:trigger ImageByte(o, Targets(), At(At(ELF_BASE, 84), k))} :: k < 4 ==>
      ImageByte(o, Targets(), At(At(ELF_BASE, 84), k))
    ensures GoodHeader(x, o, Targets(), ELF_BASE, HEADER)
  {
    SegmentPagesOfHeader();
    var data := FileBytes(x, o.s.m, o.pd, ELF_BASE, HEADER);
    forall k | 0 <= k < |data| ensures FromImage(x, o, Targets(), At(ELF_BASE, 84), k, data[k]) {
      assert ImageByte(o, Targets(), At(At(ELF_BASE, 84), k));
    }
  }

  lemma GoodSmallHeader(free: nat)
    requires free <= 10
    ensures GoodHeader(LITTLE_ENDIAN, SmallOrigin(free), Targets(), ELF_BASE, HEADER)
  {
    var o := SmallOrigin(free);
    SmallSlots(free);
    assert !o.s.m.mem[o.pd][256].flags.present by { assert 256 !in PresentSlots(o.s.m, o.pd); }
    forall k: nat | k < 4 ensures ImageByte(o, Targets(), At(At(ELF_BASE, 84), k)) {
      InFile(k);
      ImageByteAt(free, 84 + k);
    }
    GoodHeaderIn(LITTLE_ENDIAN, o);
  }

  lemma HeadersInImage(free: nat)
    requires free <= 10
    ensures ImageBytes(SmallOrigin(free), Targets(), ELF_BASE, 52)
    ensures ImageBytes(SmallOrigin(free), Targets(), HEADERS_BASE, 32)
  {
    forall k: nat | k < 52 ensures ImageByte(SmallOrigin(free), Targets(), At(ELF_BASE, k)) { ImageByteAt(free, k); }
    forall k: nat | k < 32 ensures ImageByte(SmallOrigin(free), Targets(), At(HEADERS_BASE, k)) {
      InHeaders(k);
      ImageByteAt(free, 52 + k);
    }
  }

  lemma OneHeader(x: ByteAccess, o: Origin, elf: Addr, phdrs: Addr, h: Header)
    requires Headers(x, o.s.m, o.pd, elf) == phdrs && HeaderCount(x, o.s.m, o.pd, elf) == 1
    requires HeaderAt(x, o.s.m, o.pd, phdrs, 0) == h
    ensures HeadersAre(x, o, elf, [h])
  {
    assert HeaderIs(x, o, elf, 0, h);
  }

  lemma OneGoodHeader(x: ByteAccess, o: Origin, elf: Addr, hs: seq<Header>)
    requires HeadersAre(x, o, elf, hs) && |hs| == 1
    requires ImageBytes(o, Targets(), elf, 52) && ImageBytes(o, Targets(), Headers(x, o.s.m, o.pd, elf), 32)
    requires GoodHeader(x, o, Targets(), elf, hs[0])
    ensures GoodHeaders(x, o, Targets(), elf, hs)
  {
  }

  lemma GoodSmallHeaders(x: ByteAccess, o: Origin)
    requires o.pd == 3 && ImageAt(x, o.s.m)
    requires ImageBytes(o, Targets(), ELF_BASE, 52) && ImageBytes(o, Targets(), HEADERS_BASE, 32)
    requires GoodHeader(x, o, Targets(), ELF_BASE, HEADER)
    ensures GoodHeaders(x, o, Targets(), ELF_BASE, [HEADER])
  {
    ReadHeadersBase(x, o.s.m);
    ReadCount(x, o.s.m);
    ReadHeaders(x, o.s.m);
    OneHeader(x, o, ELF_BASE, HEADERS_BASE, HEADER);
    OneGoodHeader(x, o, ELF_BASE, [HEADER]);
  }

  lemma SmallPlacement(free: nat)
    requires free <= 10
    ensures var o := SmallOrigin(free);
      IdentityMapped(o, Targets()) && PageDisjoint([HEADER]) && STACK in Targets() && !Shared(o.s.m, o.pd, Slot(STACK))
  {
    var o := SmallOrigin(free);
    SegmentPagesOfHeader();
    SmallSlots(free);
    assert !Shared(o.s.m, o.pd, 704) by { assert 704 !in PresentSlots(o.s.m, o.pd); }
    forall f: FrameNo | f < 16 ensures EntryFor(o.s.m, o.pd, f) == Word(f, RWU) { SmallEntries(free, f); }
  }

  /** The premises of LoadIsFaithful hold of an image with the magic number and a segment that has bytes in the file. */
  lemma PremisesCanBeMet(free: nat)
    requires free <= 10
    ensures var o := SmallOrigin(free);
      && Inv(o.s, o.own) && o.pd in o.s.dirs && IsElf(LITTLE_ENDIAN, o, ELF_BASE)
      && GoodImage(LITTLE_ENDIAN, o, Targets(), ELF_BASE, [HEADER]) && HEADER.kind == PT_LOAD && HEADER.filesz > 0
  {
    SmallOriginIsOwned(free);
    SmallImage(free);
    HeadersInImage(free);
    GoodSmallHeader(free);
    GoodSmallHeaders(LITTLE_ENDIAN, SmallOrigin(free));
    ReadMagic(LITTLE_ENDIAN, SmallOrigin(free).s.m);
    SmallPlacement(free);
  }

  lemma SmallPages()
    ensures PagesFrom([HEADER], 0) == [0x4_0000] && SlotsOf([0x4_0000]) == {256}
    ensures Cost({0}, [0x4_0000] + [STACK]) == 4
  {
    SegmentPagesOfHeader();
    assert PagesFrom([HEADER], 1) == [];
    CostConcat({0}, [0x4_0000], [STACK]);
    CostOfOne({0}, 0x4_0000);
    CostOfOne({0} + {256}, STACK);
  }

  lemma SmallNeeds(free: nat)
    requires free <= 10
    ensures var o := SmallOrigin(free);
      && LoadNeeds(o, [HEADER]) == 4 && Free(o.s.m) == free
      && (Stackless(o, [HEADER]) <==> free == 3) && (PageStranded(o, [HEADER]) <==> free == 1)
  {
    SegmentPagesOfHeader();
    SmallPages();
    SmallSlots(free);
    SmallCounts(free);
    StrandsOne(PresentSlots(SmallOrigin(free).s.m, SmallOrigin(free).pd), 0x4_0000, free);
  }

  function SmallByte(k: nat): Byte
    requires k < 4
  {
    if k == 0 then 0x78 else if k == 1 then 0x56 else if k == 2 then 0x34 else 0x12
  }

  lemma BytesOfWord(k: nat)
    requires k < 4
    ensures GetByte(0x1234_5678, k) == SmallByte(k)
  {
    assert 0x1234_5678 == 0x100 * 0x12_3456 + 0x78 && 0x12_3456 == 0x100 * 0x1234 + 0x56;
    assert 0x1234 == 0x100 * 0x12 + 0x34;
    assert 0x1234_5678 / 0x100 == 0x12_3456 && 0x1234_5678 / 0x1_0000 == 0x1234 && 0x1234_5678 / 0x100_0000 == 0x12;
  }

  /** The four bytes of the file that the segment is loaded from. */
  lemma SegmentByte(free: nat, k: nat)
    requires free <= 10 && k < 4
    ensures Read(LITTLE_ENDIAN, SmallOrigin(free).s.m, 3, At(At(ELF_BASE, 84), k)) == SmallByte(k)
  {
    var m := SmallOrigin(free).s.m;
    InFile(k);
    InImage(84 + k);
    SmallEntries(free, 5);
    SmallFrame(free);
    ImageValue(m.mem[5], 21);
    BytesOfWord(k);
    ReadIsByte(m, 3, At(ELF_BASE, 84 + k), 5, 21, k, 0x1234_5678);
  }

  lemma SegmentBytes(x: ByteAccess, m: Machine, k: nat, b: Byte)
    requires k < 4 && Read(x, m, 3, At(At(ELF_BASE, 84), k)) == b
    ensures FileBytes(x, m, 3, ELF_BASE, HEADER)[k] == b
  {
  }

  lemma LoadedByte(x: ByteAccess, o: Origin, r: Machine, a: Addr)
    requires SegmentLoaded(x, o, r, ELF_BASE, HEADER) && 0x4000_0000 <= a < 0x4000_1000
    ensures Read(x, r, o.pd, a) ==
      if a < 0x4000_0004 then FileBytes(x, o.s.m, o.pd, ELF_BASE, HEADER)[a - 0x4000_0000] else 0
  {
    SegmentPagesOfHeader();
    assert PageOf(a) == 0x4_0000;
  }

  /** The segment as the program sees it. */
  lemma LoadedSmallByte(r: Machine, a: Addr)
    requires SegmentLoaded(LITTLE_ENDIAN, SmallOrigin(4), r, ELF_BASE, HEADER) && 0x4000_0000 <= a < 0x4000_1000
    ensures Read(LITTLE_ENDIAN, r, 3, a) == if a < 0x4000_0004 then SmallByte(a - 0x4000_0000) else 0
  {
    LoadedByte(LITTLE_ENDIAN, SmallOrigin(4), r, a);
    if a < 0x4000_0004 {
      SegmentByte(4, a - 0x4000_0000);
      SegmentBytes(LITTLE_ENDIAN, SmallOrigin(4).s.m, a - 0x4000_0000, SmallByte(a - 0x4000_0000));
    }
  }

  /** The page of the segment holds its four bytes, and zeros behind them. */
  ghost predicate SmallProgram(r: Machine)
  {
    forall a: Addr :: 0x4000_0000 <= a < 0x4000_1000 ==>
      Read(LITTLE_ENDIAN, r, 3, a) == if a < 0x4000_0004 then SmallByte(a - 0x4000_0000) else 0
  }

  lemma SmallProgramIsLoaded(r: Machine)
    requires SegmentsInPlace(LITTLE_ENDIAN, SmallOrigin(4), r, ELF_BASE, [HEADER])
    ensures SmallProgram(r)
  {
    assert [HEADER][0] == HEADER && SegmentLoaded(LITTLE_ENDIAN, SmallOrigin(4), r, ELF_BASE, HEADER);
    forall a: Addr | 0x4000_0000 <= a < 0x4000_1000
      ensures Read(LITTLE_ENDIAN, r, 3, a) == if a < 0x4000_0004 then SmallByte(a - 0x4000_0000) else 0
    {
      LoadedSmallByte(r, a);
    }
  }

  lemma SmallEntryPoint(x: ByteAccess, m: Machine)
    requires ImageAt(x, m)
    ensures EntryPoint(x, m, 3, ELF_BASE) == 0x4000_0000
  {
    NamedFileField(x, m, 6, 24, 0x4000_0000);
  }

  /** No slot of the space is there without being writable. */
  lemma SmallSlotsAreWritable(free: nat, h: nat)
    requires free <= 10 && h < ENTRIES
    ensures !ReadOnlyBefore(SmallOrigin(free), h)
  {
    assert SmallOrigin(free).s.m.mem[3] == ZeroFrame()[0 := Word(2, RWU)];
  }

  /** With four frames free the image loads, stack and all, and the program may read and write every page. */
  lemma CompleteLoadExample()
    ensures var o := SmallOrigin(4);
      var (r, out) := LoadImage(LITTLE_ENDIAN, o.s.m, o.pd, ELF_BASE);
      && out.Loaded? && SmallProgram(r) && StackInPlace(LITTLE_ENDIAN, o, r)
      && EntryPoint(LITTLE_ENDIAN, o.s.m, o.pd, ELF_BASE) == 0x4000_0000
      && EntryFor(r, 3, 0x4_0000).flags == Flags(true, true, true, 0)
      && r.mem[3][256].flags.present && r.mem[3][256].flags.writable && r.mem[3][256].flags.user
  {
    LittleEndianIsLawful();
    PremisesCanBeMet(4);
    SmallNeeds(4);
    var own', done := LoadIsFaithful(LITTLE_ENDIAN, SmallOrigin(4), Targets(), ELF_BASE, [HEADER]);
    var r := LoadImage(LITTLE_ENDIAN, SmallOrigin(4).s.m, 3, ELF_BASE).0;
    SmallProgramIsLoaded(r);
    SmallImage(4);
    SmallEntryPoint(LITTLE_ENDIAN, SmallOrigin(4).s.m);
    SmallSlotsAreWritable(4, 256);
    SegmentPagesOfHeader();
    assert [HEADER][0] == HEADER && SegmentLoaded(LITTLE_ENDIAN, SmallOrigin(4), r, ELF_BASE, HEADER);
    assert 0x4_0000 in SegmentPages([HEADER][0]) && ProgramMayUse(SmallOrigin(4), r, 0x4_0000);
    assert NewPage(SmallOrigin(4), r, 0x4_0000);
  }

  /** With three it is reported as loaded, and the stack page is not mapped. */
  lemma StacklessLoadExample()
    ensures var o := SmallOrigin(3);
      var (r, out) := LoadImage(LITTLE_ENDIAN, o.s.m, o.pd, ELF_BASE);
      out.Loaded? && !StackMapped(o, r)
  {
    LittleEndianIsLawful();
    PremisesCanBeMet(3);
    SmallNeeds(3);
    var own', done := LoadIsFaithful(LITTLE_ENDIAN, SmallOrigin(3), Targets(), ELF_BASE, [HEADER]);
  }

  /** With two the segment is loaded and the load returns -1 for want of a stack. */
  lemma FailedLoadExample()
    ensures var o := SmallOrigin(2);
      LoadImage(LITTLE_ENDIAN, o.s.m, o.pd, ELF_BASE).1 == Failed
  {
    LittleEndianIsLawful();
    PremisesCanBeMet(2);
    SmallNeeds(2);
    var own', done := LoadIsFaithful(LITTLE_ENDIAN, SmallOrigin(2), Targets(), ELF_BASE, [HEADER]);
  }

  /** With one the page of the segment gets its frame and no table, and clearing it faults in the kernel. */
  lemma FaultingLoadExample()
    ensures var o := SmallOrigin(1);
      LoadImage(LITTLE_ENDIAN, o.s.m, o.pd, ELF_BASE).1 == Faulted
  {
    LittleEndianIsLawful();
    PremisesCanBeMet(1);
    SmallNeeds(1);
    var own', done := LoadIsFaithful(LITTLE_ENDIAN, SmallOrigin(1), Targets(), ELF_BASE, [HEADER]);
  }
}

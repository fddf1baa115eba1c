/**
 Memory as a program sees it, byte by byte through the page tables of its directory, and what
 page allocation and byte stores do to it.
 */
module ElfMemory {
  import opened Sizes
  import opened Folding
  import opened VmmModel
  import opened VmmInvariant
  import opened VmmSteps
  import opened VmmRuns
  import opened WordBytes

  /** A virtual address. */
  type Addr = a: nat | a < WORD

  function PageOf(a: Addr): FrameNo { a / 4096 }

  function WordIn(a: Addr): (k: nat)
    ensures k < ENTRIES
  {
    a % 4096 / 4
  }

  function ByteIn(a: Addr): (k: nat)
    ensures k < 4
  {
    a % 4
  }

  lemma Remainder(k: nat, r: nat)
    requires r < 4
    ensures (4 * k + r) % 4 == r
  {
  }

  lemma AddressSum(a: Addr)
    ensures a == 4096 * PageOf(a) + 4 * WordIn(a) + ByteIn(a)
  {
    var r := a % 4096;
    Remainder(1024 * PageOf(a) + r / 4, r % 4);
  }

  lemma AddressParts(a: Addr, b: Addr)
    requires PageOf(a) == PageOf(b) && WordIn(a) == WordIn(b) && ByteIn(a) == ByteIn(b)
    ensures a == b
  {
    AddressSum(a);
    AddressSum(b);
  }

  /** The entry that maps a page of directory pd. */
  function EntryFor(m: Machine, pd: FrameNo, page: FrameNo): Word { Leaf(m, pd, Slot(page), Index(page)) }

  /** The byte a program running under pd reads; a page that is not mapped reads as 0 here. */
  function Read(x: ByteAccess, m: Machine, pd: FrameNo, a: Addr): Byte
  {
    var e := EntryFor(m, pd, PageOf(a));
    if e.flags.present then x.get(m.mem[e.frame][WordIn(a)], ByteIn(a)) else 0
  }

  /** A byte store under pd, to a mapped page. */
  function Store(x: ByteAccess, m: Machine, pd: FrameNo, a: Addr, b: Byte): Machine
  {
    var f := EntryFor(m, pd, PageOf(a)).frame;
    Write(m, f, WordIn(a), x.set_(m.mem[f][WordIn(a)], ByteIn(a), b))
  }

  // ---------------------------------------------------------------- data frames

  /** A frame that is neither a directory nor a table. */
  ghost predicate IsData(own: map<nat, Role>, f: nat) { f in own ==> own[f].Page? }

  lemma TableOrDirIsNotData(s: System, own: map<nat, Role>, d: FrameNo, h: nat, f: nat)
    requires TablesInv(s, own) && IsDir(s, d) && h < ENTRIES && IsData(own, f)
    ensures d != f && d in own
    ensures s.m.mem[d][h].flags.present ==> s.m.mem[d][h].frame != f && s.m.mem[d][h].frame in own
  {
    assert d in s.dirs ==> DirOk(s.m, own, d);
    if s.m.mem[d][h].flags.present { TableIsLabelled(s, own, d, h); }
  }

  /** Writing a data frame leaves every directory and table, hence every translation, as it is. */
  lemma DataWriteKeeps(s: System, own: map<nat, Role>, f: FrameNo, page: Frame)
    requires Inv(s, own) && IsData(own, f)
    ensures Inv(s.(m := WriteFrame(s.m, f, page)), own) && SameTranslations(s, WriteFrame(s.m, f, page))
  {
    var m' := WriteFrame(s.m, f, page);
    var s' := s.(m := m');
    forall d: FrameNo, h, k | IsDir(s, d) && 0 <= h < ENTRIES && 0 <= k < ENTRIES
      ensures m'.mem[d] == s.m.mem[d] && Leaf(m', d, h, k) == Leaf(s.m, d, h, k)
    {
      TableOrDirIsNotData(s, own, d, h, f);
    }
    TableOrDirIsNotData(s, own, s.m.kernel, 0, f);
    forall d | d in s.dirs ensures DirOk(m', own, d) && PagesOk(m', own, d) {
      TableOrDirIsNotData(s, own, d, 0, f);
      assert DirOk(s.m, own, d) && PagesOk(s.m, own, d);
      forall h | 0 <= h < ENTRIES ensures SlotOk(m', own, d, h) { assert SlotOk(s.m, own, d, h); }
      forall h, k | 0 <= h < ENTRIES && 0 <= k < ENTRIES
        ensures PageOk(m', own, d, h, k)
      {
        assert PageOk(s.m, own, d, h, k);
      }
    }
  }

  /** Mapping a page in a space's own slot leaves all used data frames as they are. */
  lemma MapKeepsData(s: System, own: map<nat, Role>, pd: FrameNo, page: FrameNo, phys: FrameNo, flags: Flags,
                     g: FrameNo)
    requires TablesInv(s, own) && pd in s.dirs && !Shared(s.m, pd, Slot(page)) && g in s.m.used && IsData(own, g)
    ensures MapIn(s.m, pd, page, phys, flags).0.mem[g] == s.m.mem[g]
  {
    var i := Slot(page);
    TableOrDirIsNotData(s, own, pd, i, g);
    KernelIsNoSpace(s, own);
    AllocFresh(s.m);
  }

  // ---------------------------------------------------------------- a load in progress

  /** Where a load started: the system, its labels, and the directory being loaded. */
  datatype Origin = Origin(s: System, own: map<nat, Role>, pd: FrameNo)

  /** Page p is mapped, in a slot of the directory's own, to a frame taken since the start, for the program to use. */
  ghost predicate NewPage(o: Origin, m: Machine, p: FrameNo)
  {
    && !Shared(m, o.pd, Slot(p)) && EntryFor(m, o.pd, p).flags.present && EntryFor(m, o.pd, p).frame !in o.s.m.used
    && EntryFor(m, o.pd, p).flags == Flags(true, true, true, 0) && m.mem[o.pd][Slot(p)].flags.user
  }

  /** The slot was there at the start without being writable. */
  ghost predicate ReadOnlyBefore(o: Origin, h: nat)
    requires h < ENTRIES
  {
    o.s.m.mem[o.pd][h].flags.present && !o.s.m.mem[o.pd][h].flags.writable
  }

  /** No slot has gone, and the present ones are writable unless they were there before and were not. */
  ghost predicate SlotsKeptSo(o: Origin, m: Machine)
  {
    forall h :: 0 <= h < ENTRIES ==>
      && (o.s.m.mem[o.pd][h].flags.present ==> m.mem[o.pd][h].flags.present)
      && (m.mem[o.pd][h].flags.present ==> (m.mem[o.pd][h].flags.writable <==> !ReadOnlyBefore(o, h)))
  }

  /** The same, folded up. */
  ghost predicate SlotsKept(o: Origin, m: Machine)
  {
    forall z: int {:trigger Unfold(z)} :: Unfold(z) ==> SlotsKeptSo(o, m)
  }

  lemma SlotsKeptIs(o: Origin, m: Machine)
    ensures SlotsKept(o, m) <==> SlotsKeptSo(o, m)
  {
    assert Unfold(0);
  }

  lemma SameSlotsKept(o: Origin, m: Machine, r: Machine)
    requires SlotsKept(o, m) && r.mem[o.pd] == m.mem[o.pd]
    ensures SlotsKept(o, r)
  {
    SlotsKeptIs(o, m);
    SlotsKeptIs(o, r);
  }

  /** A slot that was present keeps its flag, and a new one is writable. */
  lemma OneSlotKept(o: Origin, m: Machine, r: Machine, i: nat)
    requires SlotsKept(o, m) && i < ENTRIES
    requires forall h :: 0 <= h < ENTRIES && h != i ==> r.mem[o.pd][h] == m.mem[o.pd][h]
    requires r.mem[o.pd][i].flags.present
    requires r.mem[o.pd][i].flags.writable <==> !m.mem[o.pd][i].flags.present || m.mem[o.pd][i].flags.writable
    ensures SlotsKept(o, r)
  {
    SlotsKeptIs(o, m);
    SlotsKeptIs(o, r);
  }

  /** The program may read page p, and write it unless its slot was there before and was not writable. */
  ghost predicate ProgramMayUse(o: Origin, m: Machine, p: FrameNo)
  {
    var slot, entry := m.mem[o.pd][Slot(p)].flags, EntryFor(m, o.pd, p).flags;
    && slot.present && slot.user && entry.present && entry.user
    && (slot.writable && entry.writable <==> !ReadOnlyBefore(o, Slot(p)))
  }

  lemma NewPageIsUsable(o: Origin, m: Machine, own: map<nat, Role>, pages: set<FrameNo>)
    requires Loading(o, m, own, pages)
    ensures forall p :: p in pages ==> ProgramMayUse(o, m, p)
  {
    SlotsKeptIs(o, m);
    forall p | p in pages ensures ProgramMayUse(o, m, p) { assert NewPage(o, m, p); }
  }

  /** Frames in use at the start have no new label, and those that hold data have the same contents. */
  ghost predicate OldFramesKept(o: Origin, m: Machine, own: map<nat, Role>)
  {
    && o.s.m.used <= m.used
    && (forall f :: f in o.s.m.used && f in own ==> f in o.own && own[f] == o.own[f])
    && (forall f: FrameNo :: f in o.s.m.used && IsData(o.own, f) ==> m.mem[f] == o.s.m.mem[f])
  }

  /** Every translation is the original one, except those of the given pages of the directory. */
  ghost predicate OnlyRemaps(o: Origin, m: Machine, pages: set<FrameNo>)
  {
    forall d: FrameNo, q: FrameNo :: IsDir(o.s, d) && (d != o.pd || q !in pages) ==>
      EntryFor(m, d, q) == EntryFor(o.s.m, d, q)
  }

  ghost predicate Loading(o: Origin, m: Machine, own: map<nat, Role>, pages: set<FrameNo>)
  {
    && Inv(System(m, o.s.dirs), own) && o.pd in o.s.dirs && m.kernel == o.s.m.kernel && m.total == o.s.m.total
    && OldFramesKept(o, m, own)
    && OnlyRemaps(o, m, pages)
    && (forall p :: p in pages ==> NewPage(o, m, p))
    && (forall h :: 0 <= h < ENTRIES && Shared(m, o.pd, h) ==> Shared(o.s.m, o.pd, h))
    && SlotsKept(o, m)
  }

  /** The bytes of the given pages read alike in m and m'. */
  ghost predicate SameReads(x: ByteAccess, m: Machine, m': Machine, pd: FrameNo, pages: set<FrameNo>)
  {
    forall a: Addr :: PageOf(a) in pages ==> Read(x, m', pd, a) == Read(x, m, pd, a)
  }

  /** The frame behind a new page is labelled for that page alone. */
  lemma NewPageIsLabelled(o: Origin, m: Machine, own: map<nat, Role>, pages: set<FrameNo>, p: FrameNo)
    requires Loading(o, m, own, pages) && p in pages
    ensures Labelled(own, EntryFor(m, o.pd, p).frame, Page(o.pd, Slot(p), Index(p)))
  {
    assert NewPage(o, m, p);
    assert PagesOk(m, own, o.pd);
    assert PageOk(m, own, o.pd, Slot(p), Index(p));
  }

  /** Writing the frame behind a new page, or one in use by nobody, is no business of any other page. */
  lemma WriteKeepsLoading(o: Origin, m: Machine, own: map<nat, Role>, pages: set<FrameNo>, f: FrameNo, page: Frame)
    requires Loading(o, m, own, pages) && IsData(own, f) && f !in o.s.m.used
    ensures Loading(o, WriteFrame(m, f, page), own, pages) && f != o.pd
    ensures SameTranslations(System(m, o.s.dirs), WriteFrame(m, f, page))
  {
    var s := System(m, o.s.dirs);
    var m' := WriteFrame(m, f, page);
    DataWriteKeeps(s, own, f, page);
    TableOrDirIsNotData(s, own, o.pd, 0, f);
    TableOrDirIsNotData(s, own, m.kernel, 0, f);
    assert m'.mem[o.pd] == m.mem[o.pd] && m'.mem[m.kernel] == m.mem[m.kernel];
    forall d: FrameNo, q: FrameNo | IsDir(o.s, d) ensures EntryFor(m', d, q) == EntryFor(m, d, q) {
      assert IsDir(s, d);
    }
    SameSlotsKept(o, m, m');
    forall p | p in pages ensures NewPage(o, m', p) { assert NewPage(o, m, p); }
  }

  /** A byte stored to a new page is read back there, and every other byte of the new pages is unchanged. */
  lemma StoreKeeps(x: ByteAccess, o: Origin, m: Machine, own: map<nat, Role>, pages: set<FrameNo>, a: Addr, b: Byte)
    requires Lawful(x) && Loading(o, m, own, pages) && PageOf(a) in pages
    ensures Loading(o, Store(x, m, o.pd, a, b), own, pages)
    ensures Store(x, m, o.pd, a, b).used == m.used && Store(x, m, o.pd, a, b).mem[o.pd] == m.mem[o.pd]
    ensures forall c: Addr :: PageOf(c) in pages ==>
      Read(x, Store(x, m, o.pd, a, b), o.pd, c) == if c == a then b else Read(x, m, o.pd, c)
  {
    var f := EntryFor(m, o.pd, PageOf(a)).frame;
    var m' := Store(x, m, o.pd, a, b);
    NewPageIsLabelled(o, m, own, pages, PageOf(a));
    assert NewPage(o, m, PageOf(a));
    WriteKeepsLoading(o, m, own, pages, f, m'.mem[f]);
    assert m' == WriteFrame(m, f, m'.mem[f]);
    forall c: Addr | PageOf(c) in pages ensures Read(x, m', o.pd, c) == if c == a then b else Read(x, m, o.pd, c) {
      NewPageIsLabelled(o, m, own, pages, PageOf(c));
      assert EntryFor(m', o.pd, PageOf(c)) == EntryFor(m, o.pd, PageOf(c));
      if EntryFor(m, o.pd, PageOf(c)).frame == f {
        PageParts(PageOf(a), PageOf(c));
        if WordIn(c) == WordIn(a) && c != a {
          if ByteIn(c) == ByteIn(a) { AddressParts(a, c); }
        }
      }
    }
  }

  /** VMM_USER | VMM_WRITABLE. */
  const USER_WRITABLE: Flags := Flags(false, true, true, 0)

  /** The mapping step of a page allocation under pd succeeds. */
  ghost predicate GetsMapped(m: Machine, pd: FrameNo, p: FrameNo)
  {
    MapIn(Alloc(m).0, pd, p, Alloc(m).1, USER_WRITABLE).1
  }

  /** No frame is free. */
  ghost predicate Exhausted(m: Machine) { Alloc(m).1 == 0 }

  /** A mapping in an own slot fails only for want of a table, and then nothing is mapped. */
  lemma FailedMap(m: Machine, pd: FrameNo, p: FrameNo, phys: FrameNo, flags: Flags)
    requires Sane(m) && pd in m.used && !Shared(m, pd, Slot(p)) && !MapIn(m, pd, p, phys, flags).1
    ensures MapIn(m, pd, p, phys, flags).0 == m && Exhausted(m) && !EntryFor(m, pd, p).flags.present
  {
    MapSucceedsIff(m, pd, p, phys, flags);
  }

  /** The frame of the allocation, labelled for its page. */
  lemma TakeForPage(o: Origin, m: Machine, own: map<nat, Role>, pages: set<FrameNo>, p: FrameNo)
    returns (own': map<nat, Role>)
    requires Loading(o, m, own, pages) && !Exhausted(m)
    ensures var (m1, f) := Alloc(m);
      && Loading(o, m1, own', pages) && own' == own[f := Page(o.pd, Slot(p), Index(p))]
      && f !in o.s.m.used && f !in own && f in m1.used && m1.mem == m.mem
  {
    AllocFresh(m);
    var s := System(m, o.s.dirs);
    own' := own[Alloc(m).1 := Page(o.pd, Slot(p), Index(p))];
    TakeFrame(s, own, own');
    SameSlotsKept(o, m, Alloc(m).0);
    forall q | q in pages ensures NewPage(o, Alloc(m).0, q) { assert NewPage(o, m, q); }
  }

  /** The new pages read alike on machines that translate them alike and agree on data frames. */
  lemma ReadsKept(x: ByteAccess, o: Origin, m: Machine, r: Machine, own: map<nat, Role>, pages: set<FrameNo>)
    requires Loading(o, m, own, pages) && forall q | q in pages :: EntryFor(r, o.pd, q) == EntryFor(m, o.pd, q)
    requires forall g: FrameNo | g in m.used && IsData(own, g) :: r.mem[g] == m.mem[g]
    ensures SameReads(x, m, r, o.pd, pages)
  {
    forall a: Addr | PageOf(a) in pages ensures Read(x, r, o.pd, a) == Read(x, m, o.pd, a) {
      NewPageIsLabelled(o, m, own, pages, PageOf(a));
    }
  }

  /** Mapping one more page at a frame labelled for it leaves the other new pages as they are. */
  lemma MapKeepsLoading(x: ByteAccess, o: Origin, m: Machine, own: map<nat, Role>, pages: set<FrameNo>, p: FrameNo,
                        f: FrameNo)
    returns (own': map<nat, Role>)
    requires Loading(o, m, own, pages) && p !in pages && !Shared(m, o.pd, Slot(p))
    requires Labelled(own, f, Page(o.pd, Slot(p), Index(p))) && f !in o.s.m.used
    requires MapIn(m, o.pd, p, f, USER_WRITABLE).1
    ensures var r := MapIn(m, o.pd, p, f, USER_WRITABLE).0;
      && Loading(o, r, own', pages + {p}) && Extends(own, own')
      && EntryFor(r, o.pd, p) == Word(f, USER_WRITABLE.(present := true))
      && SameReads(x, m, r, o.pd, pages)
  {
    var s := System(m, o.s.dirs);
    var r := MapIn(m, o.pd, p, f, USER_WRITABLE).0;
    KernelIsNoSpace(s, own);
    own' := MapKeeps(s, own, o.pd, p, f, USER_WRITABLE);
    forall h | 0 <= h < ENTRIES && !Shared(m, o.pd, h) ensures !Shared(r, o.pd, h) {
      MapSharesNothing(s, own, o.pd, p, f, USER_WRITABLE, h);
    }
    MapSharesNothing(s, own, o.pd, p, f, USER_WRITABLE, Slot(p));
    MapKeepsOthers(o, m, own, pages, p, f, own');
    MapSlotFlags(s, own, o.pd, p, f, USER_WRITABLE);
    OneSlotKept(o, m, r, Slot(p));
    forall g: FrameNo | g in m.used && IsData(own, g) ensures r.mem[g] == m.mem[g] {
      MapKeepsData(s, own, o.pd, p, f, USER_WRITABLE, g);
    }
    ReadsKept(x, o, m, r, own, pages);
    forall q | q in pages ensures NewPage(o, r, q) { assert NewPage(o, m, q); }
  }

  lemma MapKeepsOthers(o: Origin, m: Machine, own: map<nat, Role>, pages: set<FrameNo>, p: FrameNo, f: FrameNo,
                       own': map<nat, Role>)
    requires Loading(o, m, own, pages) && MapIn(m, o.pd, p, f, USER_WRITABLE).1
    requires var s := System(m, o.s.dirs);
      forall d: FrameNo, h, k ::
        IsDir(s, d) && 0 <= h < ENTRIES && 0 <= k < ENTRIES && Elsewhere(s, o.pd, p, d, h, k) ==>
        Leaf(MapIn(m, o.pd, p, f, USER_WRITABLE).0, d, h, k) == Leaf(m, d, h, k)
    ensures forall d: FrameNo, q: FrameNo :: IsDir(o.s, d) && (d != o.pd || q != p) ==>
      EntryFor(MapIn(m, o.pd, p, f, USER_WRITABLE).0, d, q) == EntryFor(m, d, q)
  {
    var s := System(m, o.s.dirs);
    KernelIsNoSpace(s, own);
    forall d: FrameNo, q: FrameNo | IsDir(o.s, d) && (d != o.pd || q != p)
      ensures EntryFor(MapIn(m, o.pd, p, f, USER_WRITABLE).0, d, q) == EntryFor(m, d, q)
    {
      if Slot(q) == Slot(p) && Index(q) == Index(p) { PageParts(q, p); }
      assert IsDir(s, d) && Elsewhere(s, o.pd, p, d, Slot(q), Index(q));
    }
  }

  /** A page allocation maps the page to a new frame, or fails for want of a table with no page changed. */
  lemma AllocKeeps(x: ByteAccess, o: Origin, m: Machine, own: map<nat, Role>, pages: set<FrameNo>, p: FrameNo)
    returns (own': map<nat, Role>)
    requires Loading(o, m, own, pages) && p !in pages && !Shared(m, o.pd, Slot(p)) && !Exhausted(m)
    ensures var (r, f) := AllocIn(m, o.pd, p, USER_WRITABLE);
      && f == Alloc(m).1 && f < m.total && f !in o.s.m.used && Labelled(own', f, Page(o.pd, Slot(p), Index(p)))
      && SameReads(x, m, r, o.pd, pages)
      && Loading(o, r, own', if GetsMapped(m, o.pd, p) then pages + {p} else pages)
      && (GetsMapped(m, o.pd, p) ==> EntryFor(r, o.pd, p) == Word(f, USER_WRITABLE.(present := true)))
      && (!GetsMapped(m, o.pd, p) ==> Exhausted(r) && !EntryFor(r, o.pd, p).flags.present)
  {
    AllocFresh(m);
    var (m1, f) := Alloc(m);
    own' := TakeForPage(o, m, own, pages, p);
    if GetsMapped(m, o.pd, p) {
      own' := MapKeepsLoading(x, o, m1, own', pages, p, f);
    } else {
      assert DirOk(m1, own', o.pd);
      FailedMap(m1, o.pd, p, f, USER_WRITABLE);
    }
  }
}

/**
 Small machines on which the virtual memory code does not do what a caller would expect.
 */
module VmmExamples {
  import opened VmmModel
  import opened VmmInvariant
  import opened VmmClone
  import opened VmmCount
  import opened VmmRuns
  import opened VmmShared
  import opened Vmm

  /** A frame whose first word is w, all other words zero. */
  ghost function FirstWord(w: Word): Frame { ZeroFrame()[0 := w] }

  // ---------------------------------------------------------------- a frame without a mapping

  /** Kernel directory 1, an empty space 2, and frame 3 the only free one. */
  ghost function OneFreeFrame(): Machine { Machine(Blank(), {0, 1, 2}, 4, 1) }

  /** With one frame free and no table for the slot, a page allocation returns the frame but maps nothing. */
  lemma UnmappedAllocExample(page: FrameNo, flags: Flags)
    ensures var (r, f) := AllocIn(OneFreeFrame(), 2, page, flags);
      f == 3 && f in r.used && forall offset :: GetPhys(r, 2, page, offset) == 0
  {
    var m := OneFreeFrame();
    AllocFresh(m);
    assert IsFree(m, 3);
    AllocMapsIff(m, 2, page, flags);
    assert m.mem[2] == ZeroFrame();
  }

  // ---------------------------------------------------------------- VMM_USER in the kernel's directory

  /** Kernel directory 1 with table 2, without VMM_USER, in slot 0, and a space 3 that shares the slot. */
  ghost function SharedSlot(): System
  {
    var dir := FirstWord(Word(2, Flags(true, true, false, 0)));
    var mem: Memory := Blank()[1 := dir][3 := dir];
    System(Machine(mem, {0, 1, 2, 3}, 4, 1), {3})
  }

  /** A user mapping in the kernel's directory leaves the space with a slot of its own that names the kernel's table. */
  lemma KernelUserMapExample(phys: FrameNo)
    ensures var s := SharedSlot();
      var r := MapIn(s.m, s.m.kernel, 0, phys, Flags(false, true, true, 0)).0;
      && TablesInv(s, map[1 := KernelDir, 2 := KernelTable(0), 3 := Dir])
      && Private(r, 3, 0) && r.mem[3][0].frame == r.mem[1][0].frame
      && (forall own :: !TablesInv(s.(m := r), own))
  {
    var s := SharedSlot();
    var own := map[1 := KernelDir, 2 := KernelTable(0), 3 := Dir];
    assert s.m.mem[3] == s.m.mem[1] && s.m.mem[1][0] == Word(2, Flags(true, true, false, 0));
    assert DirOk(s.m, own, 3);
    assert Shared(s.m, 3, 0);
    KernelMapSafeIff(s, own, 0, phys, Flags(false, true, true, 0));
  }

  // ---------------------------------------------------------------- stale words

  /**
   Seven frames: kernel directory 1, a space 2 with table 3 and page 4, and two free ones, the last with stale words.
   */
  ghost function StaleMachine(): Machine
  {
    var mem: Memory := Blank()[2 := FirstWord(Word(3, RWU))];
    var mem: Memory := mem[3 := FirstWord(Word(4, RWU))][6 := FirstWord(Word(4, RWU))];
    Machine(mem, {0, 1, 2, 3, 4}, 7, 1)
  }

  lemma StaleMachineCounts()
    ensures var m := StaleMachine(); Free(m) == 2 && NthFree(m, 1) == 6 && SourceSpace(m, 2) && Private(m, 2, 0)
  {
    var m := StaleMachine();
    assert m.mem[1] == ZeroFrame();
    assert Pmm.FreeSet(m.used, m.total) == {5, 6};
    assert FreeBetween(m.used, 0, 6) == {5};
    NthIsUnique(m.used, m.total, 0, 6, 1);
  }

  /** A failed clone can free a page that its source still maps. */
  lemma StaleCloneExample()
    ensures var m := StaleMachine();
      && SourceSpace(m, 2) && Clone(m, 2).1 == 0
      && Leaf(m, 2, 0, 0) == Word(4, RWU) && 4 in m.used && 4 !in Clone(m, 2).0.used
  {
    var m := StaleMachine();
    StaleMachineCounts();
    assert m.mem[3][0].flags.present && m.mem[6][0] == Word(4, RWU);
    assert Leaves(m.mem[3], 0) >= 1;
    assert Costs(m, 2)[0] == SlotCost(m, 2, 0) >= 2;
    StaleInMember(m, 6, 0, 4);
    assert 4 in CloneStale(m, 2);
    FailedCloneRestoresIff(m, 2);
  }

  // ---------------------------------------------------------------- a page in the kernel's range

  /** Kernel directory 1 with table 2, which maps page 0 to frame 4, a space 3 that shares the slot, two frames free. */
  ghost function KernelPage(): System
  {
    var dir := FirstWord(Word(2, RWU));
    var mem: Memory := Blank()[1 := dir][2 := FirstWord(Word(4, RWU))];
    var mem: Memory := mem[3 := dir];
    System(Machine(mem, {0, 1, 2, 3, 4}, 7, 1), {3})
  }

  lemma KernelPageIsOwned()
    ensures var s := KernelPage();
      && Inv(s, map[1 := KernelDir, 2 := KernelTable(0), 3 := Dir])
      && Shared(s.m, 3, 0) && Leaf(s.m, 1, 0, 0) == Word(4, RWU) && Free(s.m) == 2
  {
    var s := KernelPage();
    var own := map[1 := KernelDir, 2 := KernelTable(0), 3 := Dir];
    assert s.m.mem[3] == s.m.mem[1] && s.m.mem[1][0] == Word(2, RWU) && s.m.mem[2][0] == Word(4, RWU);
    assert DirOk(s.m, own, 3) && PagesOk(s.m, own, 3);
    assert Pmm.FreeSet(s.m.used, s.m.total) == {5, 6};
  }

  /** Mapping page 1 in the space and destroying the space frees frame 4, which the kernel maps as page 0. */
  lemma SharedMapExample(flags: Flags)
    ensures var s := KernelPage();
      var r := Destroy(AllocIn(s.m, 3, 1, flags).0, 3);
      4 in s.m.used && 4 !in Owned(s.m, 3) && 4 !in r.used && GetPhys(r, 1, 0, 0) == 4 * 4096
  {
    var s := KernelPage();
    var own := map[1 := KernelDir, 2 := KernelTable(0), 3 := Dir];
    KernelPageIsOwned();
    SharedMapFreesKernelPage(s, own, 3, 1, flags, 0);
    if 4 in Owned(s.m, 3) { OwnedIsLabelled(s, own, 3, 4); }
  }

  /** A page of memory itself, such as one of a program linked at 0x08048000 on a machine with 256 MiB. */
  ghost predicate SharesIdentity(s: System, pd: FrameNo, page: FrameNo, q: FrameNo)
  {
    pd in s.dirs && IdentityBelow(s.m, s.m.total) && Shared(s.m, pd, Slot(page)) && Slot(q) == Slot(page) && q != page
  }

  /** With all memory identity-mapped, every other frame of the 4 MiB around the page is freed with the space. */
  lemma IdentityPageIsFreed(s: System, own: map<nat, Role>, pd: FrameNo, page: FrameNo, q: FrameNo, flags: Flags)
    requires Inv(s, own) && SharesIdentity(s, pd, page, q) && q < s.m.total && Free(s.m) >= 2
    ensures var r := Destroy(AllocIn(s.m, pd, page, flags).0, pd);
      q !in r.used && GetPhys(r, r.kernel, q, 0) == q * 4096
  {
    if Index(q) == Index(page) { PageParts(q, page); }
    SharedMapFreesKernelPage(s, own, pd, page, flags, Index(q));
    KernelIsNoSpace(s, own);
    assert AllocIn(s.m, pd, page, flags).0.kernel == s.m.kernel;
  }
}

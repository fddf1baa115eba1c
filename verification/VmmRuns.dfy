/**
 The laws of address spaces: what a clone is, that destroying it gives back what it took, and
 that ownership survives every run of create, map, clone and destroy.
 */
module VmmRuns {
  import opened VmmModel
  import opened VmmInvariant
  import opened VmmSteps
  import opened VmmClone
  import opened VmmCount
  import opened VmmRelease

  // ---------------------------------------------------------------- mapping, as the caller sees it

  lemma PageParts(p: FrameNo, q: FrameNo)
    requires Slot(p) == Slot(q) && Index(p) == Index(q)
    ensures p == q
  {
  }

  /** After a successful map, the page reads as the new frame and every other translation is as before. */
  lemma MapThenGetPhys(s: System, own: map<nat, Role>, pd: FrameNo, page: FrameNo, phys: FrameNo, flags: Flags)
    requires TablesInv(s, own) && pd in s.dirs && MapIn(s.m, pd, page, phys, flags).1
    ensures var m' := MapIn(s.m, pd, page, phys, flags).0;
      && (forall offset :: GetPhys(m', pd, page, offset) == phys * 4096 + offset)
      && (forall d: FrameNo, q: FrameNo, offset :: IsDir(s, d) && (d != pd || q != page) ==>
           GetPhys(m', d, q, offset) == GetPhys(s.m, d, q, offset))
  {
    var own' := MapKeeps(s, own, pd, page, phys, flags);
    var m' := MapIn(s.m, pd, page, phys, flags).0;
    assert pd != s.m.kernel by { assert DirOk(s.m, own, pd); }
    forall d: FrameNo, q: FrameNo | IsDir(s, d) && (d != pd || q != page)
      ensures Leaf(m', d, Slot(q), Index(q)) == Leaf(s.m, d, Slot(q), Index(q))
    {
      if d == pd && Slot(q) == Slot(page) && Index(q) == Index(page) { PageParts(q, page); }
      assert Elsewhere(s, pd, page, d, Slot(q), Index(q));
    }
  }

  /**
   The flags of the slot after a mapping: present; open to users if it was or the mapping is; writable as it was,
   and always when it is new. The other slots stay as they are.
   */
  lemma MapSlotFlags(s: System, own: map<nat, Role>, pd: FrameNo, page: FrameNo, phys: FrameNo, flags: Flags)
    requires TablesInv(s, own) && IsDir(s, pd) && MapIn(s.m, pd, page, phys, flags).1
    ensures var e, w := s.m.mem[pd][Slot(page)], MapIn(s.m, pd, page, phys, flags).0.mem[pd][Slot(page)];
      && w.flags.present
      && (w.flags.user <==> flags.user || (e.flags.present && e.flags.user))
      && (w.flags.writable <==> !e.flags.present || e.flags.writable)
    ensures forall h :: 0 <= h < ENTRIES && h != Slot(page) ==>
      MapIn(s.m, pd, page, phys, flags).0.mem[pd][h] == s.m.mem[pd][h]
  {
    AllocFresh(s.m);
    assert pd in own by { assert pd in s.dirs ==> DirOk(s.m, own, pd); }
    if s.m.mem[pd][Slot(page)].flags.present { TableIsLabelled(s, own, pd, Slot(page)); }
    assert pd in s.dirs ==> DirOk(s.m, own, pd);
  }

  /** The slot has a table that a mapping under pd may write. */
  ghost predicate OwnTable(m: Machine, pd: FrameNo, i: nat)
    requires i < ENTRIES
  {
    m.mem[pd][i].flags.present && (pd == m.kernel || !Shared(m, pd, i))
  }

  /** A mapping succeeds exactly when no table is needed or a frame is free for it; failing, it changes nothing. */
  lemma MapSucceedsIff(m: Machine, pd: FrameNo, page: FrameNo, phys: FrameNo, flags: Flags)
    requires Sane(m) && pd in m.used
    ensures MapIn(m, pd, page, phys, flags).1 <==> OwnTable(m, pd, Slot(page)) || exists f: nat :: IsFree(m, f)
    ensures !MapIn(m, pd, page, phys, flags).1 ==> MapIn(m, pd, page, phys, flags).0 == m && Alloc(m).1 == 0
  {
    AllocFresh(m);
    var (m1, t) := Alloc(m);
    if t != 0 {
      assert IsFree(m, t);
      if Shared(m, pd, Slot(page)) && pd != m.kernel {
        assert Privatise(m, pd, Slot(page), flags.user).0.mem[pd][Slot(page)].flags.present;
      }
    }
  }

  /**
   vmm_alloc_page returns a frame whenever one is free, mapped or not. The page is mapped exactly when
   the slot has its own table or a second frame is free; otherwise the frame is taken and leaked.
   */
  lemma AllocMapsIff(m: Machine, pd: FrameNo, page: FrameNo, flags: Flags)
    requires Sane(m) && pd in m.used
    ensures var (r, f) := AllocIn(m, pd, page, flags);
      && (f != 0 <==> exists g: nat :: IsFree(m, g))
      && (f != 0 ==>
           var ok := OwnTable(m, pd, Slot(page)) || exists g: nat :: IsFree(m, g) && g != f;
           && (MapIn(Alloc(m).0, pd, page, f, flags).1 <==> ok)
           && (!ok ==> r == m.(used := m.used + {f})))
  {
    AllocFresh(m);
    var (m1, f) := Alloc(m);
    if f != 0 {
      assert IsFree(m, f);
      MapSucceedsIff(m1, pd, page, f, flags);
      assert forall g: nat :: IsFree(m1, g) <==> IsFree(m, g) && g != f;
    }
  }

  /** A mapping in the kernel's directory keeps tables unaliased exactly when its VMM_USER bit is harmless. */
  lemma KernelMapSafeIff(s: System, own: map<nat, Role>, page: FrameNo, phys: FrameNo, flags: Flags)
    requires TablesInv(s, own)
    ensures (exists own' :: TablesInv(s.(m := MapIn(s.m, s.m.kernel, page, phys, flags).0), own'))
       <==> KernelUserOk(s, s.m.kernel, Slot(page), flags)
  {
    var k, i := s.m.kernel, Slot(page);
    var m' := MapIn(s.m, k, page, phys, flags).0;
    if KernelUserOk(s, k, i, flags) {
      var own' := MapKeeps(s, own, k, page, phys, flags);
    } else {
      var d :| d in s.dirs && Shared(s.m, d, i);
      TableIsLabelled(s, own, d, i);
      assert DirOk(s.m, own, d);
      assert m'.mem[d] == s.m.mem[d] && m'.mem[k][i] == WithUser(s.m.mem[k][i], true);
      forall own' ensures !TablesInv(s.(m := m'), own') {
        if TablesInv(s.(m := m'), own') {
          PrivateTablesAreNotShared(s.(m := m'), own', d, i, k, i);
        }
      }
    }
  }

  // ---------------------------------------------------------------- create

  /**
   A new directory is to be had whenever a frame is free. It has every present slot of the kernel's, bit for bit,
   and zero in the others; so it translates every page as the kernel's directory does, before and after.
   */
  lemma CreateCopiesKernel(m: Machine, own: map<nat, Role>)
    requires TablesInv(System(m, {}), own)
    ensures Create(m).1 != 0 <==> Free(m) > 0
    ensures Create(m).1 == 0 ==> Create(m).0 == m
    ensures Create(m).1 != 0 ==>
      var (r, pd) := Create(m);
      && pd !in m.used && r.used == m.used + {pd} && r.kernel == m.kernel && r.mem[r.kernel] == m.mem[m.kernel]
      && (forall i :: 0 <= i < ENTRIES ==> KernelsSlot(m, r.mem[pd][i], i))
      && forall page: FrameNo, offset ::
        GetPhys(r, pd, page, offset) == GetPhys(m, m.kernel, page, offset) == GetPhys(r, r.kernel, page, offset)
  {
    AllocFresh(m);
    AllocCounts(m);
    var (r, pd) := Create(m);
    if pd == 0 { return; }
    forall page: FrameNo
      ensures Leaf(r, pd, Slot(page), Index(page)) == Leaf(m, m.kernel, Slot(page), Index(page))
    {
      if m.mem[m.kernel][Slot(page)].flags.present { TableIsLabelled(System(m, {}), own, m.kernel, Slot(page)); }
    }
    forall page: FrameNo
      ensures Leaf(r, r.kernel, Slot(page), Index(page)) == Leaf(m, m.kernel, Slot(page), Index(page))
    {
      if m.mem[m.kernel][Slot(page)].flags.present { TableIsLabelled(System(m, {}), own, m.kernel, Slot(page)); }
    }
  }

  // ---------------------------------------------------------------- clone

  /** A directory just created, before any slot is copied. */
  lemma CreateUntouched(m: Machine)
    requires Sane(m)
    ensures Untouched(m, Create(m).0)
  {
    AllocFresh(m);
  }

  lemma NoLabels(m: Machine, pd: FrameNo) returns (own': map<nat, Role>)
    requires SourceSpace(m, pd) && Create(m).1 != 0
    ensures var (r, dst) := Create(m);
      var (q, ok) := CloneDir(r, pd, dst, 0);
      && dst !in m.used && (ok <==> HaltOf(r, pd, dst, 0).Complete?)
      && (if ok then Progress(m, q, pd, dst, ENTRIES) && Labels(m, q, map[], own', dst)
          else RolledBack(m, q, StaleAt(m, HaltOf(r, pd, dst, 0))))
  {
    var (r, dst) := Create(m);
    CreateUntouched(m);
    var own := CreateStartsClone(m, pd, map[]);
    own' := CloneDirResult(m, r, pd, dst, 0, map[], own);
  }

  /** A clone is a deep copy in fresh, pairwise distinct frames; everything that was in use is untouched. */
  lemma CloneIsDeepCopy(m: Machine, pd: FrameNo)
    requires SourceSpace(m, pd) && Clone(m, pd).1 != 0
    ensures var (r, dst) := Clone(m, pd);
      && dst !in m.used && KeepsUsed(m, r, dst)
      && (forall h :: 0 <= h < ENTRIES ==> ClonedSlot(m, r, pd, dst, h))
      && (forall h, k, h', k' ::
        0 <= h < ENTRIES && 0 <= k < ENTRIES && 0 <= h' < ENTRIES && 0 <= k' < ENTRIES && (h, k) != (h', k')
        && Private(r, dst, h) && Private(r, dst, h')
        && Leaf(r, dst, h, k).flags.present && Leaf(r, dst, h', k').flags.present ==>
          Leaf(r, dst, h, k).frame != Leaf(r, dst, h', k').frame)
  {
    var own' := NoLabels(m, pd);
    var (r, dst) := Clone(m, pd);
    forall h, k, h', k' | 0 <= h < ENTRIES && 0 <= k < ENTRIES && 0 <= h' < ENTRIES && 0 <= k' < ENTRIES
      && (h, k) != (h', k')
      && Private(r, dst, h) && Private(r, dst, h') && Leaf(r, dst, h, k).flags.present
      && Leaf(r, dst, h', k').flags.present
      ensures Leaf(r, dst, h, k).frame != Leaf(r, dst, h', k').frame
    {
      assert PageOk(r, own', dst, h, k) && PageOk(r, own', dst, h', k');
    }
  }

  /** Destroying a clone gives back exactly the frames it took. */
  lemma CloneThenDestroyRestores(m: Machine, pd: FrameNo)
    requires SourceSpace(m, pd) && Clone(m, pd).1 != 0
    ensures var (r, dst) := Clone(m, pd);
      && r.used == m.used + Owned(r, dst) && Owned(r, dst) !! m.used
      && Destroy(r, dst).used == m.used
      && (forall f: FrameNo :: f in m.used ==> Destroy(r, dst).mem[f] == m.mem[f])
  {
    var own' := NoLabels(m, pd);
    var (r, dst) := Clone(m, pd);
    DestroyUndoesProgress(m, r, pd, dst, ENTRIES, map[], own');
  }

  /** The frames a clone has to take: its directory, and a table and pages for every private slot. */
  function CloneNeeds(m: Machine, pd: FrameNo): nat { 1 + Sum(Costs(m, pd)) }

  /** How a clone ends, read off the machine before the call. */
  ghost function CloneHalt(m: Machine, pd: FrameNo): (h: Halt)
    ensures h.InTable? ==> h.n <= ENTRIES
  {
    if Free(m) == 0 then NoFrame else HaltAt(m, pd, Free(m), StopOf(Costs(m, pd), 0, Free(m) - 1))
  }

  /** What a failed clone releases beyond what it took. */
  ghost function CloneStale(m: Machine, pd: FrameNo): set<nat> { StaleAt(m, CloneHalt(m, pd)) }

  lemma CreateCounts(m: Machine, pd: FrameNo, own: map<nat, Role>) returns (own': map<nat, Role>)
    requires SourceSpace(m, pd) && own.Keys <= m.used && 0 !in own && Create(m).1 != 0
    ensures var (r, dst) := Create(m);
      Counted(m, r, pd, dst, 0, own, own') && Free(m) > 0 && Free(r) == Free(m) - 1
  {
    AllocFresh(m);
    AllocCounts(m);
    TookNothing(m);
    AllocKeepsAccount(m, m);
    var (m1, dst) := Alloc(m);
    WriteKeepsAccount(m, m1, dst, KernelSlots(m1));
    own' := CreateStartsClone(m, pd, own);
  }

  lemma {:induction false} CloneHaltsSo(m: Machine, pd: FrameNo)
    requires SourceSpace(m, pd) && Create(m).1 != 0
    ensures HaltOf(Create(m).0, pd, Create(m).1, 0) == CloneHalt(m, pd) && Free(m) > 0
  {
    var own := CreateCounts(m, pd, map[]);
    CloneDirCounts(m, Create(m).0, pd, Create(m).1, own);
  }

  lemma PaysAll(m: Machine, pd: FrameNo)
    requires Free(m) > 0
    ensures CloneHalt(m, pd).Complete? <==> Free(m) >= CloneNeeds(m, pd)
  {
    assert Costs(m, pd)[0..] == Costs(m, pd);
    PaysAllIff(Costs(m, pd), 0, Free(m) - 1);
  }

  /**
   A clone succeeds exactly when there is a frame for its directory and for every private table and page of the
   source.
   */
  lemma CloneSucceedsIff(m: Machine, pd: FrameNo)
    requires SourceSpace(m, pd)
    ensures Clone(m, pd).1 != 0 <==> Free(m) >= CloneNeeds(m, pd)
  {
    AllocCounts(m);
    AllocFresh(m);
    if Create(m).1 != 0 {
      CloneHaltsSo(m, pd);
      PaysAll(m, pd);
      var own := NoLabels(m, pd);
    }
  }

  /**
   A failed clone releases the stale frames and no other that was in use, so it restores the used frames
   exactly when the words it mistakes for entries, known before the call, name none of them.
   */
  lemma FailedCloneRestoresIff(m: Machine, pd: FrameNo)
    requires SourceSpace(m, pd) && Free(m) < CloneNeeds(m, pd)
    ensures var (r, copy) := Clone(m, pd);
      && copy == 0 && RolledBack(m, r, CloneStale(m, pd))
      && (r.used == m.used <==> CloneStale(m, pd) !! m.used)
  {
    AllocCounts(m);
    AllocFresh(m);
    CloneSucceedsIff(m, pd);
    if Create(m).1 != 0 {
      CloneHaltsSo(m, pd);
      var own := NoLabels(m, pd);
    }
  }

  /** With exactly the cost of the first i items in hand, paying stops at the next item that costs anything. */
  lemma {:induction false} StopsAtItem(costs: seq<nat>, i: nat, h: nat, b: nat)
    requires h <= i < |costs| && costs[i] > 0 && b == Sum(costs[h..i])
    ensures StopOf(costs, h, b) == Stop(i, 0)
    decreases i - h
  {
    if h < i {
      assert costs[h..i][0] == costs[h] && costs[h..i][1..] == costs[h + 1..i];
      StopsAtItem(costs, i, h + 1, b - costs[h]);
    }
  }

  /**
   A clone that fails on the allocation of a table, or of its directory, restores the used frames whatever memory
   holds.
   */
  lemma {:induction false} TableFailureRestores(m: Machine, pd: FrameNo, i: nat)
    requires SourceSpace(m, pd) && i < ENTRIES
    requires Free(m) == 0 || (Private(m, pd, i) && Free(m) == 1 + Sum(Costs(m, pd)[..i]))
    ensures Clone(m, pd).1 == 0 && Clone(m, pd).0.used == m.used
  {
    if Free(m) > 0 {
      assert Costs(m, pd)[i] == SlotCost(m, pd, i) && Costs(m, pd)[0..i] == Costs(m, pd)[..i];
      StopsAtItem(Costs(m, pd), i, 0, Free(m) - 1);
      PaysAll(m, pd);
    }
    FailedCloneRestoresIff(m, pd);
  }

  // ---------------------------------------------------------------- runs

  datatype Op =
    | DoCreate
    | DoMap(pd: FrameNo, page: FrameNo, flags: Flags)  // vmm_alloc_page_in, or vmm_alloc_page after a switch to pd
    | DoKernelMap(page: FrameNo, flags: Flags)         // vmm_alloc_page in the kernel's directory
    | DoClone(pd: FrameNo)
    | DoDestroy(pd: FrameNo)

  ghost predicate Allowed(s: System, op: Op)
  {
    match op
    case DoCreate => true
    case DoMap(pd, page, flags) => pd in s.dirs && MayMap(s, pd, page)
    case DoKernelMap(page, flags) => KernelUserOk(s, s.m.kernel, Slot(page), flags)
    case DoClone(pd) => pd in s.dirs && (Free(s.m) < CloneNeeds(s.m, pd) ==> CloneStale(s.m, pd) !! s.m.used)
    case DoDestroy(pd) => pd in s.dirs
  }

  ghost function Step(s: System, op: Op): System
  {
    match op
    case DoCreate => var (m, pd) := Create(s.m); System(m, if pd == 0 then s.dirs else s.dirs + {pd})
    case DoMap(pd, page, flags) => s.(m := AllocIn(s.m, pd, page, flags).0)
    case DoKernelMap(page, flags) => s.(m := AllocIn(s.m, s.m.kernel, page, flags).0)
    case DoClone(pd) => var (m, c) := Clone(s.m, pd); System(m, if c == 0 then s.dirs else s.dirs + {c})
    case DoDestroy(pd) => System(Destroy(s.m, pd), s.dirs - {pd})
  }

  ghost predicate Run(s: System, ops: seq<Op>, r: System)
    decreases |ops|
  {
    if ops == [] then r == s else Allowed(s, ops[0]) && Run(Step(s, ops[0]), ops[1..], r)
  }

  lemma CreateKeeps(s: System, own: map<nat, Role>) returns (own': map<nat, Role>)
    requires Inv(s, own)
    ensures Inv(Step(s, DoCreate), own')
  {
    own' := own;
    if Create(s.m).1 != 0 {
      var (m1, pd) := Alloc(s.m);
      AllocFresh(s.m);
      own' := NewFrame(s, own, KernelSlots(m1), Dir);
      var m' := WriteFrame(m1, pd, KernelSlots(m1));
      assert m'.mem[pd] == KernelSlots(s.m) && m'.mem[s.m.kernel] == s.m.mem[s.m.kernel];
      assert DirOk(m', own', pd) && PagesOk(m', own', pd);
    }
  }

  /** A frame taken and not written: nothing else changes. */
  lemma TakeFrame(s: System, own: map<nat, Role>, own': map<nat, Role>)
    requires Inv(s, own) && Alloc(s.m).1 != 0
    requires own'.Keys <= own.Keys + {Alloc(s.m).1} && Extends(own, own')
    ensures Inv(s.(m := Alloc(s.m).0), own') && Alloc(s.m).1 !in own
    ensures SameTranslations(s, Alloc(s.m).0) && Alloc(s.m).0.mem == s.m.mem && Alloc(s.m).0.kernel == s.m.kernel
  {
    AllocFresh(s.m);
    CarryInv(s, Alloc(s.m).0, own, own');
  }

  /** No entry of table t other than j is present. */
  ghost predicate OnlyEntry(m: Machine, t: FrameNo, j: nat)
  {
    forall k :: 0 <= k < ENTRIES && k != j ==> !m.mem[t][k].flags.present
  }

  /** A page may be mapped: the slot is not the kernel's, or the kernel's table maps no other page. */
  ghost predicate MayMap(s: System, pd: FrameNo, page: FrameNo)
  {
    Shared(s.m, pd, Slot(page)) ==> OnlyEntry(s.m, s.m.mem[pd][Slot(page)].frame, Index(page))
  }

  /** Mapping in a space writes no other directory, and no other slot of its own. */
  lemma MapKeepsDirs(s: System, own: map<nat, Role>, pd: FrameNo, page: FrameNo, phys: FrameNo, flags: Flags,
                     d: FrameNo, h: nat)
    requires TablesInv(s, own) && pd in s.dirs && Shared(s.m, pd, Slot(page)) && IsDir(s, d) && h < ENTRIES
    requires d != pd || h != Slot(page)
    ensures MapIn(s.m, pd, page, phys, flags).0.mem[d][h] == s.m.mem[d][h]
  {
    AllocFresh(s.m);
    assert DirOk(s.m, own, pd) && (d in s.dirs ==> DirOk(s.m, own, d));
  }

  /** A mapping that copies a kernel table with no other entry keeps ownership of pages. */
  lemma MapSharedKeeps(s: System, own: map<nat, Role>, pd: FrameNo, page: FrameNo, phys: FrameNo, flags: Flags)
    returns (own': map<nat, Role>)
    requires Inv(s, own) && pd in s.dirs && Shared(s.m, pd, Slot(page)) && MayMap(s, pd, page)
    requires Labelled(own, phys, Page(pd, Slot(page), Index(page)))
    ensures Inv(s.(m := MapIn(s.m, pd, page, phys, flags).0), own')
    ensures Grows(s, own, MapIn(s.m, pd, page, phys, flags).0, own')
  {
    var i, j := Slot(page), Index(page);
    KernelIsNoSpace(s, own);
    own' := MapKeeps(s, own, pd, page, phys, flags);
    var (m', ok) := MapIn(s.m, pd, page, phys, flags);
    if !ok { return own; }
    forall d, h, k | d in s.dirs && 0 <= h < ENTRIES && 0 <= k < ENTRIES ensures PageOk(m', own', d, h, k) {
      assert PagesOk(s.m, own, d);
      assert PageOk(s.m, own, d, h, k);
      if d == pd && h == i {
        if k != j { assert Elsewhere(s, pd, page, d, h, k); }
      } else {
        assert Elsewhere(s, pd, page, d, h, k);
        MapKeepsDirs(s, own, pd, page, phys, flags, d, h);
        MapKeepsDirs(s, own, pd, page, phys, flags, s.m.kernel, h);
      }
    }
  }

  /** The frames that the kernel maps in slot i are not already labelled as pages that pd maps there. */
  ghost predicate KernelLeavesUnowned(s: System, own: map<nat, Role>, pd: FrameNo, i: nat)
    requires i < ENTRIES
  {
    forall k :: 0 <= k < ENTRIES && Leaf(s.m, s.m.kernel, i, k).flags.present ==>
      !Labelled(own, Leaf(s.m, s.m.kernel, i, k).frame, Page(pd, i, k))
  }

  /**
   A mapping into a slot shared with the kernel keeps ownership exactly when the kernel's table maps no other page.
   */
  lemma SharedMapKeepsIff(s: System, own: map<nat, Role>, pd: FrameNo, page: FrameNo, phys: FrameNo, flags: Flags)
    requires Inv(s, own) && pd in s.dirs && Shared(s.m, pd, Slot(page)) && MapIn(s.m, pd, page, phys, flags).1
    requires Labelled(own, phys, Page(pd, Slot(page), Index(page))) && KernelLeavesUnowned(s, own, pd, Slot(page))
    ensures var m' := MapIn(s.m, pd, page, phys, flags).0;
      (exists own' :: Grows(s, own, m', own') && Inv(s.(m := m'), own')) <==> MayMap(s, pd, page)
  {
    var m', i, j := MapIn(s.m, pd, page, phys, flags).0, Slot(page), Index(page);
    if MayMap(s, pd, page) {
      var own' := MapSharedKeeps(s, own, pd, page, phys, flags);
    } else {
      var k :| 0 <= k < ENTRIES && k != j && s.m.mem[s.m.mem[pd][i].frame][k].flags.present;
      forall own' | Grows(s, own, m', own') ensures !Inv(s.(m := m'), own') {
        if Inv(s.(m := m'), own') { CopiedLeafIsUnowned(s, own, pd, page, phys, flags, k, own'); }
      }
    }
  }

  lemma PrivateLabels(s: System, own: map<nat, Role>, pd: FrameNo, i: nat, k: nat)
    requires Inv(s, own) && pd in s.dirs && i < ENTRIES && k < ENTRIES && Private(s.m, pd, i)
    requires Leaf(s.m, pd, i, k).flags.present
    ensures Labelled(own, s.m.mem[pd][i].frame, Table(pd, i))
    ensures Labelled(own, Leaf(s.m, pd, i, k).frame, Page(pd, i, k))
  {
    assert DirOk(s.m, own, pd) && PagesOk(s.m, own, pd);
    assert SlotOk(s.m, own, pd, i) && PageOk(s.m, own, pd, i, k);
  }

  /** An entry copied from the kernel's table names a frame that no later label can claim for the space. */
  lemma CopiedLeafIsUnowned(s: System, own: map<nat, Role>, pd: FrameNo, page: FrameNo, phys: FrameNo, flags: Flags,
                            k: nat, own': map<nat, Role>)
    requires Inv(s, own) && pd in s.dirs && Shared(s.m, pd, Slot(page)) && MapIn(s.m, pd, page, phys, flags).1
    requires KernelLeavesUnowned(s, own, pd, Slot(page)) && k < ENTRIES && k != Index(page)
    requires Leaf(s.m, s.m.kernel, Slot(page), k).flags.present
    requires Grows(s, own, MapIn(s.m, pd, page, phys, flags).0, own')
    ensures !Inv(s.(m := MapIn(s.m, pd, page, phys, flags).0), own')
  {
    var m', i := MapIn(s.m, pd, page, phys, flags).0, Slot(page);
    KernelIsNoSpace(s, own);
    AllocFresh(s.m);
    var t := Alloc(s.m).1;
    assert DirOk(s.m, own, pd);
    assert m'.used == s.m.used + {t} && m'.mem[pd][i].frame == t && m'.mem[pd][i].flags.present;
    TableIsLabelled(s, own, pd, i);
    assert m'.mem[t][k] == Leaf(s.m, s.m.kernel, i, k);
    assert m'.mem[s.m.kernel] == s.m.mem[s.m.kernel];
    if Inv(s.(m := m'), own') { PrivateLabels(s.(m := m'), own', pd, i, k); }
  }

  lemma MapStepKeeps(s: System, own: map<nat, Role>, pd: FrameNo, page: FrameNo, flags: Flags)
    returns (own': map<nat, Role>)
    requires Inv(s, own) && IsDir(s, pd) && KernelUserOk(s, pd, Slot(page), flags)
    requires pd in s.dirs ==> MayMap(s, pd, page)
    ensures Inv(s.(m := AllocIn(s.m, pd, page, flags).0), own')
  {
    own' := own;
    if Alloc(s.m).1 != 0 {
      var (m1, f) := Alloc(s.m);
      var own1 := if pd == s.m.kernel then own else own[f := Page(pd, Slot(page), Index(page))];
      AllocFresh(s.m);
      TakeFrame(s, own, own1);
      if pd in s.dirs && Shared(s.m, pd, Slot(page)) {
        KernelIsNoSpace(s, own);
        own' := MapSharedKeeps(s.(m := m1), own1, pd, page, f, flags);
      } else {
        own' := MapKeeps(s.(m := m1), own1, pd, page, f, flags);
      }
    }
  }

  lemma InvGivesSource(s: System, own: map<nat, Role>, pd: FrameNo)
    requires Inv(s, own) && pd in s.dirs
    ensures SourceSpace(s.m, pd)
  {
    assert DirOk(s.m, own, pd) && PagesOk(s.m, own, pd);
    forall h | 0 <= h < ENTRIES && Private(s.m, pd, h) ensures s.m.mem[pd][h].frame in s.m.used {
      assert SlotOk(s.m, own, pd, h);
    }
    forall h, k | 0 <= h < ENTRIES && 0 <= k < ENTRIES && Private(s.m, pd, h) && Leaf(s.m, pd, h, k).flags.present
      ensures Leaf(s.m, pd, h, k).frame in s.m.used
    {
      assert PageOk(s.m, own, pd, h, k);
    }
  }

  lemma CloneStepKeeps(s: System, own: map<nat, Role>, pd: FrameNo) returns (own': map<nat, Role>)
    requires Inv(s, own) && Allowed(s, DoClone(pd))
    ensures Inv(Step(s, DoClone(pd)), own')
  {
    InvGivesSource(s, own, pd);
    own' := own;
    var (r, dst) := Clone(s.m, pd);
    CloneSucceedsIff(s.m, pd);
    if dst == 0 {
      FailedCloneRestoresIff(s.m, pd);
      CarryInv(s, r, own, own);
    } else {
      var (r0, d) := Create(s.m);
      var own1 := CreateStartsClone(s.m, pd, own);
      own' := CloneDirResult(s.m, r0, pd, dst, 0, own, own1);
      CarryInv(s, r, own, own');
      assert DirOk(r, own', dst) && PagesOk(r, own', dst);
    }
  }

  lemma DestroyStepKeeps(s: System, own: map<nat, Role>, pd: FrameNo) returns (own': map<nat, Role>)
    requires Inv(s, own) && pd in s.dirs
    ensures Inv(Step(s, DoDestroy(pd)), own')
  {
    own' := map f | f in own && f != pd && !RoleOf(own[f], pd) :: own[f];
    var r := Destroy(s.m, pd);
    assert DirOk(s.m, own, pd);
    assert own'.Keys <= r.used && 0 in r.used by {
      forall f | f in Owned(s.m, pd) ensures f !in own' && f != 0 { OwnedIsLabelled(s, own, pd, f); }
    }
    forall d | d in s.dirs - {pd} ensures DirOk(r, own', d) && PagesOk(r, own', d) {
      assert DirOk(s.m, own, d) && PagesOk(s.m, own, d);
      forall i | 0 <= i < ENTRIES ensures SlotOk(r, own', d, i) { assert SlotOk(s.m, own, d, i); }
      forall i, j | 0 <= i < ENTRIES && 0 <= j < ENTRIES
        ensures PageOk(r, own', d, i, j)
      {
        assert PageOk(s.m, own, d, i, j);
      }
    }
  }

  lemma KernelIsNoSpace(s: System, own: map<nat, Role>)
    requires TablesInv(s, own)
    ensures s.m.kernel !in s.dirs
  {
  }

  lemma StepKeeps(s: System, own: map<nat, Role>, op: Op) returns (own': map<nat, Role>)
    requires Inv(s, own) && Allowed(s, op)
    ensures Inv(Step(s, op), own')
  {
    match op
    case DoCreate => own' := CreateKeeps(s, own);
    case DoMap(pd, page, flags) =>
      assert pd != s.m.kernel by { assert DirOk(s.m, own, pd); }
      own' := MapStepKeeps(s, own, pd, page, flags);
    case DoKernelMap(page, flags) =>
      KernelIsNoSpace(s, own);
      own' := MapStepKeeps(s, own, s.m.kernel, page, flags);
    case DoClone(pd) => own' := CloneStepKeeps(s, own, pd);
    case DoDestroy(pd) => own' := DestroyStepKeeps(s, own, pd);
  }

  /** Safety over whole runs: ownership, and with it freedom from aliasing, is never lost. */
  lemma {:induction false} RunsKeepOwnership(s: System, own: map<nat, Role>, ops: seq<Op>, r: System)
    returns (own': map<nat, Role>)
    requires Inv(s, own) && Run(s, ops, r)
    ensures Inv(r, own')
    decreases |ops|
  {
    if ops == [] {
      own' := own;
    } else {
      var own1 := StepKeeps(s, own, ops[0]);
      own' := RunsKeepOwnership(Step(s, ops[0]), own1, ops[1..], r);
    }
  }

  // ---------------------------------------------------------------- building and destroying

  /** A page to be allocated, with its flags. */
  datatype Request = Request(page: FrameNo, flags: Flags)

  /** Page allocations at the given virtual pages, in order. */
  function AllocAll(m: Machine, pd: FrameNo, rs: seq<Request>): Machine
    decreases |rs|
  {
    if rs == [] then m else AllocAll(AllocIn(m, pd, rs[0].page, rs[0].flags).0, pd, rs[1..])
  }

  /** Every allocation got a frame, and the table to map it. */
  ghost predicate AllMapped(m: Machine, pd: FrameNo, rs: seq<Request>)
    decreases |rs|
  {
    rs != [] ==>
      && Alloc(m).1 != 0
      && MapIn(Alloc(m).0, pd, rs[0].page, Alloc(m).1, rs[0].flags).1
      && AllMapped(AllocIn(m, pd, rs[0].page, rs[0].flags).0, pd, rs[1..])
  }

  ghost predicate Distinct(rs: seq<Request>)
  {
    forall a, b :: 0 <= a < b < |rs| ==> rs[a].page != rs[b].page
  }

  /** Page p is not mapped in pd, and its slot is not the kernel's. */
  ghost predicate UnmappedPage(m: Machine, pd: FrameNo, p: FrameNo)
  {
    !Shared(m, pd, Slot(p)) && !Leaf(m, pd, Slot(p), Index(p)).flags.present
  }

  ghost predicate Unmapped(m: Machine, pd: FrameNo, rs: seq<Request>)
  {
    forall a :: 0 <= a < |rs| ==> UnmappedPage(m, pd, rs[a].page)
  }

  /** The address space holds exactly what was taken since m. */
  ghost predicate Accounts(m: Machine, r: Machine, pd: FrameNo)
  {
    r.used == m.used + Owned(r, pd) && Owned(r, pd) !! m.used
  }

  lemma {:induction false} LeafFramesAfterEntry(m: Machine, r: Machine, t: FrameNo, j: nat, f: FrameNo, n: nat)
    requires n <= ENTRIES && j < ENTRIES && !m.mem[t][j].flags.present && r.mem[t][j].flags.present
    requires r.mem[t][j].frame == f
    requires forall k :: 0 <= k < ENTRIES && k != j ==> r.mem[t][k] == m.mem[t][k]
    ensures LeafFrames(r, t, n) == LeafFrames(m, t, n) + if j < n then {f} else {}
  {
    if n > 0 { LeafFramesAfterEntry(m, r, t, j, f, n - 1); }
  }

  lemma {:induction false} ZeroTableOwnsNothing(m: Machine, t: FrameNo, n: nat)
    requires n <= ENTRIES && m.mem[t] == ZeroFrame()
    ensures LeafFrames(m, t, n) == {}
  {
    if n > 0 { ZeroTableOwnsNothing(m, t, n - 1); }
  }

  /** Only slot i of pd changed, from owning a to owning b. */
  lemma {:induction false} TableFramesAfterSlot(m: Machine, r: Machine, pd: FrameNo, i: nat, n: nat, extra: set<nat>)
    requires n <= ENTRIES && i < ENTRIES && r.kernel == m.kernel && r.mem[m.kernel] == m.mem[m.kernel]
    requires forall h :: 0 <= h < ENTRIES && h != i ==> r.mem[pd][h] == m.mem[pd][h]
    requires forall h :: 0 <= h < ENTRIES && h != i && Private(m, pd, h) ==>
      r.mem[m.mem[pd][h].frame] == m.mem[m.mem[pd][h].frame]
    requires Private(r, pd, i)
    requires LeafFrames(r, r.mem[pd][i].frame, ENTRIES) + {r.mem[pd][i].frame}
          == extra + if Private(m, pd, i) then LeafFrames(m, m.mem[pd][i].frame, ENTRIES) + {m.mem[pd][i].frame} else {}
    ensures TableFrames(r, pd, n) == TableFrames(m, pd, n) + if i < n then extra else {}
  {
    if n > 0 {
      TableFramesAfterSlot(m, r, pd, i, n - 1, extra);
      if n - 1 != i && Private(m, pd, n - 1) { LeafFramesSame(m, r, m.mem[pd][n - 1].frame, ENTRIES); }
    }
  }

  /** The address space came to own exactly the frames taken between m and r. */
  ghost predicate OwnsNew(m: Machine, r: Machine, pd: FrameNo)
  {
    m.used <= r.used && Owned(r, pd) == Owned(m, pd) + (r.used - m.used)
  }

  /** Tables of private slots are labelled, so a frame with no label is none of them. */
  lemma PrivateTable(s: System, own: map<nat, Role>, pd: FrameNo, h: nat)
    requires TablesInv(s, own) && pd in s.dirs && h < ENTRIES && Private(s.m, pd, h)
    ensures Labelled(own, s.m.mem[pd][h].frame, Table(pd, h)) && Labelled(own, pd, Dir) && s.m.kernel != pd
  {
    assert DirOk(s.m, own, pd);
    assert SlotOk(s.m, own, pd, h);
  }

  /** Mapping a fresh frame f in a slot that already has a table: the space gains f. */
  lemma EnterOwns(s: System, own: map<nat, Role>, pd: FrameNo, page: FrameNo, f: FrameNo, flags: Flags)
    requires TablesInv(s, own) && pd in s.dirs && Private(s.m, pd, Slot(page)) && f !in own
    requires !Leaf(s.m, pd, Slot(page), Index(page)).flags.present
    ensures var m1 := Write(s.m, pd, Slot(page), WithUser(s.m.mem[pd][Slot(page)], flags.user));
      var r := Write(m1, m1.mem[pd][Slot(page)].frame, Index(page), Word(f, flags.(present := true)));
      Owned(r, pd) == Owned(s.m, pd) + {f}
  {
    var i, j, t := Slot(page), Index(page), s.m.mem[pd][Slot(page)].frame;
    var m1 := Write(s.m, pd, i, WithUser(s.m.mem[pd][i], flags.user));
    var r := Write(m1, t, j, Word(f, flags.(present := true)));
    PrivateTable(s, own, pd, i);
    assert t != s.m.kernel && r.mem[s.m.kernel] == s.m.mem[s.m.kernel];
    TableIsLabelled(s, own, pd, i);
    assert Private(r, pd, i) by {
      if s.m.mem[s.m.kernel][i].flags.present { TableIsLabelled(s, own, s.m.kernel, i); }
    }
    LeafFramesAfterEntry(s.m, r, t, j, f, ENTRIES);
    forall h | 0 <= h < ENTRIES && h != i && Private(s.m, pd, h)
      ensures r.mem[s.m.mem[pd][h].frame] == s.m.mem[s.m.mem[pd][h].frame]
    {
      PrivateTable(s, own, pd, h);
    }
    TableFramesAfterSlot(s.m, r, pd, i, ENTRIES, {f});
  }

  /** An empty table in an absent slot: the space gains the table. */
  lemma AddTableOwns(s: System, own: map<nat, Role>, pd: FrameNo, i: nat, user: bool)
    requires TablesInv(s, own) && pd in s.dirs && i < ENTRIES && !s.m.mem[pd][i].flags.present && Alloc(s.m).1 != 0
    ensures var r := AddTable(s.m, pd, i, user).0;
      Owned(r, pd) == Owned(s.m, pd) + {Alloc(s.m).1} && r.used == s.m.used + {Alloc(s.m).1}
  {
    AllocFresh(s.m);
    var (m1, t) := Alloc(s.m);
    var r := AddTable(s.m, pd, i, user).0;
    assert DirOk(s.m, own, pd);
    assert r.mem[t] == ZeroFrame() && r.mem[s.m.kernel] == s.m.mem[s.m.kernel];
    assert Private(r, pd, i) by {
      if s.m.mem[s.m.kernel][i].flags.present { TableIsLabelled(s, own, s.m.kernel, i); }
    }
    ZeroTableOwnsNothing(r, t, ENTRIES);
    forall h | 0 <= h < ENTRIES && h != i && Private(s.m, pd, h)
      ensures r.mem[s.m.mem[pd][h].frame] == s.m.mem[s.m.mem[pd][h].frame]
    {
      PrivateTable(s, own, pd, h);
    }
    TableFramesAfterSlot(s.m, r, pd, i, ENTRIES, {t});
  }

  /** A page allocation that got its table adds exactly the frames it took to the space. */
  lemma AllocStepOwns(s: System, own: map<nat, Role>, pd: FrameNo, page: FrameNo, flags: Flags)
    requires Inv(s, own) && pd in s.dirs && UnmappedPage(s.m, pd, page)
    requires Alloc(s.m).1 != 0 && MapIn(Alloc(s.m).0, pd, page, Alloc(s.m).1, flags).1
    ensures OwnsNew(s.m, AllocIn(s.m, pd, page, flags).0, pd)
  {
    var i := Slot(page);
    AllocFresh(s.m);
    var (m1, f) := Alloc(s.m);
    TakeFrame(s, own, own);
    KernelIsNoSpace(s, own);
    var s1 := s.(m := m1);
    assert Owned(m1, pd) == Owned(s.m, pd) by { TableFramesSame(s.m, m1, pd, ENTRIES); }
    var own2 := AddTableKeeps(s1, own, pd, i, flags.user);
    if !m1.mem[pd][i].flags.present {
      AllocFresh(m1);
      AddTableOwns(s1, own, pd, i, flags.user);
    }
    var s2 := s1.(m := AddTable(m1, pd, i, flags.user).0);
    assert f !in own2;
    assert !Leaf(s2.m, pd, i, Index(page)).flags.present;
    EnterOwns(s2, own2, pd, page, f, flags);
  }

  /** Building keeps the account: what was taken since m is what the space owns. */
  lemma {:induction false} BuildAccounts(m: Machine, s: System, own: map<nat, Role>, pd: FrameNo, rs: seq<Request>)
    returns (own': map<nat, Role>)
    requires Inv(s, own) && pd in s.dirs && Accounts(m, s.m, pd)
    requires Distinct(rs) && Unmapped(s.m, pd, rs) && AllMapped(s.m, pd, rs)
    ensures Accounts(m, AllocAll(s.m, pd, rs), pd) && Inv(s.(m := AllocAll(s.m, pd, rs)), own')
    ensures AllocAll(s.m, pd, rs).kernel == s.m.kernel
    decreases |rs|
  {
    own' := own;
    if rs != [] {
      var page, flags := rs[0].page, rs[0].flags;
      assert UnmappedPage(s.m, pd, page);
      TakeFrame(s, own, own);
      MapSharesNothing(s.(m := Alloc(s.m).0), own, pd, page, Alloc(s.m).1, flags, Slot(page));
      var r := AllocIn(s.m, pd, page, flags).0;
      AllocStepOwns(s, own, pd, page, flags);
      KernelIsNoSpace(s, own);
      var own1 := MapStepKeeps(s, own, pd, page, flags);
      StaysUnmapped(s, own, pd, rs);
      own' := BuildAccounts(m, s.(m := r), own1, pd, rs[1..]);
    }
  }

  /** A table that was just added is not the kernel's. */
  lemma AddedTableIsPrivate(s: System, own: map<nat, Role>, pd: FrameNo, i: nat, user: bool)
    requires TablesInv(s, own) && pd in s.dirs && i < ENTRIES && !Shared(s.m, pd, i) && AddTable(s.m, pd, i, user).1
    ensures var m2 := AddTable(s.m, pd, i, user).0;
      && m2.mem[s.m.kernel] == s.m.mem[s.m.kernel] && m2.kernel == s.m.kernel && Private(m2, pd, i)
      && m2.mem[pd][i].frame != s.m.kernel && m2.mem[pd][i].frame != pd
      && (forall h :: 0 <= h < ENTRIES && h != i ==> m2.mem[pd][h] == s.m.mem[pd][h])
      && (s.m.mem[s.m.kernel][i].flags.present ==> s.m.mem[s.m.kernel][i].frame != m2.mem[pd][i].frame)
  {
    KernelIsNoSpace(s, own);
    AllocFresh(s.m);
    assert DirOk(s.m, own, pd);
    if s.m.mem[pd][i].flags.present { TableIsLabelled(s, own, pd, i); }
    if s.m.mem[s.m.kernel][i].flags.present { TableIsLabelled(s, own, s.m.kernel, i); }
  }

  /** A mapping in a space's own slot shares no slot with the kernel that was not shared before. */
  lemma MapSharesNothing(s: System, own: map<nat, Role>, pd: FrameNo, page: FrameNo, phys: FrameNo, flags: Flags,
                         h: nat)
    requires TablesInv(s, own) && pd in s.dirs && h < ENTRIES && !Shared(s.m, pd, Slot(page)) && !Shared(s.m, pd, h)
    ensures !Shared(MapIn(s.m, pd, page, phys, flags).0, pd, h)
    ensures MapIn(s.m, pd, page, phys, flags).0.kernel == s.m.kernel
  {
    KernelIsNoSpace(s, own);
    AllocFresh(s.m);
    if AddTable(s.m, pd, Slot(page), flags.user).1 { AddedTableIsPrivate(s, own, pd, Slot(page), flags.user); }
  }

  lemma {:induction false} StaysUnmapped(s: System, own: map<nat, Role>, pd: FrameNo, rs: seq<Request>)
    requires Inv(s, own) && pd in s.dirs && rs != [] && Distinct(rs) && Unmapped(s.m, pd, rs) && Alloc(s.m).1 != 0
    ensures Unmapped(AllocIn(s.m, pd, rs[0].page, rs[0].flags).0, pd, rs[1..])
  {
    var (m1, f) := Alloc(s.m);
    var page, flags := rs[0].page, rs[0].flags;
    assert UnmappedPage(s.m, pd, page);
    TakeFrame(s, own, own);
    KernelIsNoSpace(s, own);
    var own' := MapKeeps(s.(m := m1), own, pd, page, f, flags);
    var r := MapIn(m1, pd, page, f, flags).0;
    forall a | 0 <= a < |rs[1..]| ensures UnmappedPage(r, pd, rs[1..][a].page) {
      var q := rs[a + 1].page;
      assert page != q && UnmappedPage(s.m, pd, q);
      if Slot(q) == Slot(page) && Index(q) == Index(page) { PageParts(q, page); }
      assert Elsewhere(s.(m := m1), pd, page, pd, Slot(q), Index(q));
      MapSharesNothing(s.(m := m1), own, pd, page, f, flags, Slot(q));
    }
  }

  /** The kernel has no table for the page's slot. */
  ghost predicate KernelAbsent(m: Machine, page: FrameNo) { !m.mem[m.kernel][Slot(page)].flags.present }

  /** A new space owns its directory alone, and maps none of the pages. */
  lemma NewSpaceAccounts(m: Machine, own: map<nat, Role>, rs: seq<Request>) returns (own': map<nat, Role>)
    requires TablesInv(System(m, {}), own) && Create(m).1 != 0
    requires forall a :: 0 <= a < |rs| ==> KernelAbsent(m, rs[a].page)
    ensures var (m1, pd) := Create(m);
      && Inv(System(m1, {pd}), own') && Accounts(m, m1, pd) && Unmapped(m1, pd, rs)
      && m1.kernel == m.kernel && pd != m.kernel
  {
    var (m1, pd) := Create(m);
    AllocFresh(m);
    own' := CreateKeeps(System(m, {}), own);
    assert m1.mem[pd] == KernelSlots(m) && m1.mem[m.kernel] == m.mem[m.kernel];
    FreshDirOwnsNothing(m1, pd, ENTRIES);
  }

  /** Destroying a space built by page allocations frees exactly what building it took, each frame once. */
  lemma {:induction false} BuildThenDestroy(m: Machine, own: map<nat, Role>, rs: seq<Request>)
    requires TablesInv(System(m, {}), own) && Create(m).1 != 0
    requires Distinct(rs) && forall a :: 0 <= a < |rs| ==> KernelAbsent(m, rs[a].page)
    requires AllMapped(Create(m).0, Create(m).1, rs)
    ensures var r := AllocAll(Create(m).0, Create(m).1, rs);
      && r.used - m.used == Owned(r, Create(m).1) && m.used <= r.used
      && Destroy(r, Create(m).1).used == m.used && Once(FreedList(r, Create(m).1))
  {
    var (m1, pd) := Create(m);
    var own' := NewSpaceAccounts(m, own, rs);
    own' := BuildAccounts(m, System(m1, {pd}), own', pd, rs);
    DestroyFreesOnce(System(AllocAll(m1, pd, rs), {pd}), own', pd);
  }

  lemma {:induction false} FreshDirOwnsNothing(m: Machine, pd: FrameNo, n: nat)
    requires n <= ENTRIES && forall h :: 0 <= h < ENTRIES ==> !Private(m, pd, h)
    ensures TableFrames(m, pd, n) == {}
  {
    if n > 0 { FreshDirOwnsNothing(m, pd, n - 1); }
  }
}

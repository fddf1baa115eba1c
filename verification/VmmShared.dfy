/**
 A mapping into a slot that a space shares with the kernel copies the kernel's table, so that
 destroying the space frees the pages the kernel maps there. What a page allocation followed by
 destroy gives back, exactly, for every page of every space.
 */
module VmmShared {
  import opened VmmModel
  import opened VmmInvariant
  import opened VmmClone
  import opened VmmCount
  import opened VmmRuns

  /** Frames that the present entries of table t other than j name. */
  ghost function OtherLeaves(m: Machine, t: FrameNo, j: nat): set<nat>
  {
    set k | 0 <= k < ENTRIES && k != j && m.mem[t][k].flags.present :: m.mem[t][k].frame as nat
  }

  /** Between m and r the shared slot of the page came to hold table t, a copy of the kernel's with f entered. */
  ghost predicate Copied(s: System, own: map<nat, Role>, pd: FrameNo, page: FrameNo, f: FrameNo, t: FrameNo, r: Machine)
  {
    && f !in s.m.used && t !in s.m.used && f != t && r.used == s.m.used + {f, t}
    && r.kernel == s.m.kernel && (forall g: FrameNo :: g in own && g != pd ==> r.mem[g] == s.m.mem[g])
    && (forall h :: 0 <= h < ENTRIES && h != Slot(page) ==> r.mem[pd][h] == s.m.mem[pd][h])
    && r.mem[pd][Slot(page)].frame == t && r.mem[pd][Slot(page)].flags.present
    && r.mem[t][Index(page)].frame == f && r.mem[t][Index(page)].flags.present
    && forall k :: 0 <= k < ENTRIES && k != Index(page) ==> r.mem[t][k] == s.m.mem[s.m.mem[pd][Slot(page)].frame][k]
  }

  lemma MapCopies(s: System, own: map<nat, Role>, pd: FrameNo, page: FrameNo, flags: Flags)
    returns (t: FrameNo)
    requires Inv(s, own) && pd in s.dirs && Shared(s.m, pd, Slot(page)) && Free(s.m) >= 2
    ensures Copied(s, own, pd, page, AllocIn(s.m, pd, page, flags).1, t, AllocIn(s.m, pd, page, flags).0)
  {
    KernelIsNoSpace(s, own);
    assert DirOk(s.m, own, pd);
    TableIsLabelled(s, own, pd, Slot(page));
    AllocFresh(s.m);
    AllocCounts(s.m);
    var m1 := Alloc(s.m).0;
    AllocFresh(m1);
    AllocCounts(m1);
    t := Alloc(m1).1;
  }

  lemma CopiedLeaves(s: System, own: map<nat, Role>, pd: FrameNo, page: FrameNo, f: FrameNo, t: FrameNo, r: Machine)
    requires Copied(s, own, pd, page, f, t, r)
    ensures LeafFrames(r, t, ENTRIES) == OtherLeaves(s.m, s.m.mem[pd][Slot(page)].frame, Index(page)) + {f}
  {
    var others := OtherLeaves(s.m, s.m.mem[pd][Slot(page)].frame, Index(page));
    forall g: nat ensures g in LeafFrames(r, t, ENTRIES) <==> g in others + {f as nat} {
      LeafFramesMember(r, t, ENTRIES, g);
      if g == f { assert r.mem[t][Index(page)].flags.present; }
    }
  }

  /** The space comes to own, beside the frames taken, what the kernel's table maps at other pages. */
  lemma CopiedOwns(s: System, own: map<nat, Role>, pd: FrameNo, page: FrameNo, f: FrameNo, t: FrameNo, r: Machine)
    requires Inv(s, own) && pd in s.dirs && Shared(s.m, pd, Slot(page)) && Copied(s, own, pd, page, f, t, r)
    ensures Owned(r, pd) == Owned(s.m, pd) + {f, t} + OtherLeaves(s.m, s.m.mem[pd][Slot(page)].frame, Index(page))
    ensures r.mem[s.m.kernel] == s.m.mem[s.m.kernel] && Private(r, pd, Slot(page))
  {
    var i := Slot(page);
    KernelIsNoSpace(s, own);
    assert DirOk(s.m, own, pd);
    assert t !in own;
    TableIsLabelled(s, own, s.m.kernel, i);
    forall h | 0 <= h < ENTRIES && h != i && Private(s.m, pd, h)
      ensures r.mem[s.m.mem[pd][h].frame] == s.m.mem[s.m.mem[pd][h].frame]
    {
      PrivateTable(s, own, pd, h);
    }
    CopiedLeaves(s, own, pd, page, f, t, r);
    var extra := {f as nat, t as nat} + OtherLeaves(s.m, s.m.mem[pd][i].frame, Index(page));
    assert LeafFrames(r, t, ENTRIES) + {t} == extra + {};
    TableFramesAfterSlot(s.m, r, pd, i, ENTRIES, extra);
  }

  /** A page that the kernel maps beside the one mapped is freed with the space, and the kernel still maps it. */
  lemma SharedMapFreesKernelPage(s: System, own: map<nat, Role>, pd: FrameNo, page: FrameNo, flags: Flags, k: nat)
    requires Inv(s, own) && pd in s.dirs && Shared(s.m, pd, Slot(page)) && Free(s.m) >= 2
    requires k < ENTRIES && k != Index(page) && Leaf(s.m, s.m.kernel, Slot(page), k).flags.present
    ensures var g := Leaf(s.m, s.m.kernel, Slot(page), k);
      var r := AllocIn(s.m, pd, page, flags).0;
      && g.frame in Owned(r, pd) && g.frame !in Destroy(r, pd).used
      && Leaf(Destroy(r, pd), s.m.kernel, Slot(page), k) == g
  {
    var (r, f) := AllocIn(s.m, pd, page, flags);
    KernelIsNoSpace(s, own);
    var t := MapCopies(s, own, pd, page, flags);
    CopiedOwns(s, own, pd, page, f, t, r);
    TableIsLabelled(s, own, s.m.kernel, Slot(page));
    assert DirOk(s.m, own, pd);
  }

  // ---------------------------------------------------------------- map, then destroy

  /** Every frame the kernel maps beside the given page is free, or the space's own. */
  ghost predicate OthersHarmless(m: Machine, pd: FrameNo, page: FrameNo)
  {
    forall k :: 0 <= k < ENTRIES && k != Index(page) && Leaf(m, m.kernel, Slot(page), k).flags.present ==>
      Leaf(m, m.kernel, Slot(page), k).frame !in m.used || Leaf(m, m.kernel, Slot(page), k).frame in Owned(m, pd)
  }

  lemma HarmlessIff(m: Machine, pd: FrameNo, page: FrameNo)
    requires Shared(m, pd, Slot(page))
    ensures OthersHarmless(m, pd, page) <==>
      OtherLeaves(m, m.mem[pd][Slot(page)].frame, Index(page)) * m.used <= Owned(m, pd)
  {
    var i, t := Slot(page), m.mem[pd][Slot(page)].frame;
    var others := OtherLeaves(m, t, Index(page));
    forall k | 0 <= k < ENTRIES && k != Index(page) && Leaf(m, m.kernel, i, k).flags.present
      ensures Leaf(m, m.kernel, i, k).frame in others
    {
      assert Leaf(m, m.kernel, i, k) == m.mem[t][k];
    }
    forall g | g in others
      ensures exists k ::
        0 <= k < ENTRIES && k != Index(page) && m.mem[t][k].flags.present && Leaf(m, m.kernel, i, k).frame == g
    {
      var k :| 0 <= k < ENTRIES && k != Index(page) && m.mem[t][k].flags.present && m.mem[t][k].frame == g;
      assert Leaf(m, m.kernel, i, k) == m.mem[t][k];
    }
  }

  lemma SharedMapThenDestroyIff(s: System, own: map<nat, Role>, pd: FrameNo, page: FrameNo, flags: Flags)
    requires Inv(s, own) && pd in s.dirs && Shared(s.m, pd, Slot(page)) && Free(s.m) >= 2
    ensures Destroy(AllocIn(s.m, pd, page, flags).0, pd).used == s.m.used - Owned(s.m, pd)
       <==> OthersHarmless(s.m, pd, page)
  {
    var (r, f) := AllocIn(s.m, pd, page, flags);
    KernelIsNoSpace(s, own);
    assert DirOk(s.m, own, pd);
    var t := MapCopies(s, own, pd, page, flags);
    CopiedOwns(s, own, pd, page, f, t, r);
    HarmlessIff(s.m, pd, page);
    var others := OtherLeaves(s.m, s.m.mem[pd][Slot(page)].frame, Index(page));
    assert Destroy(r, pd).used == s.m.used - Owned(s.m, pd) - others;
    UsedLess(s.m.used, Owned(s.m, pd), others);
  }

  lemma UsedLess(used: set<nat>, mine: set<nat>, others: set<nat>)
    ensures used - mine - others == used - mine <==> others * used <= mine
  {
    if f :| f in others * used && f !in mine { assert f in used - mine; }
  }

  /** The page gets mapped: the slot has its own table, or there is a frame for one beside that of the page. */
  ghost predicate MapsPage(m: Machine, pd: FrameNo, page: FrameNo) { OwnTable(m, pd, Slot(page)) || Free(m) >= 2 }

  lemma MapsPageIff(m: Machine, pd: FrameNo, page: FrameNo, flags: Flags)
    requires Sane(m) && pd in m.used && Free(m) > 0
    ensures Alloc(m).1 != 0
    ensures MapIn(Alloc(m).0, pd, page, Alloc(m).1, flags).1 <==> MapsPage(m, pd, page)
  {
    AllocFresh(m);
    AllocCounts(m);
    var m1 := Alloc(m).0;
    AllocFresh(m1);
    AllocCounts(m1);
    MapSucceedsIff(m1, pd, page, Alloc(m).1, flags);
    if Alloc(m1).1 != 0 { assert IsFree(m1, Alloc(m1).1); }
    if f: nat :| IsFree(m1, f) { assert f in Pmm.FreeSet(m1.used, m1.total); }
  }

  /** A frame that was taken and not mapped is lost. */
  lemma UnmappedFrameIsLost(s: System, own: map<nat, Role>, pd: FrameNo, page: FrameNo, flags: Flags)
    requires Inv(s, own) && pd in s.dirs && Free(s.m) > 0 && !MapsPage(s.m, pd, page)
    ensures var (r, f) := AllocIn(s.m, pd, page, flags);
      f !in s.m.used && f in Destroy(r, pd).used
  {
    var (r, f) := AllocIn(s.m, pd, page, flags);
    KernelIsNoSpace(s, own);
    assert DirOk(s.m, own, pd);
    AllocFresh(s.m);
    MapsPageIff(s.m, pd, page, flags);
    MapSucceedsIff(Alloc(s.m).0, pd, page, Alloc(s.m).1, flags);
    TableFramesSame(s.m, r, pd, ENTRIES);
    if f in Owned(r, pd) { OwnedIsLabelled(s, own, pd, f); }
  }

  /** Between m and r entry f replaced another one in the space's own table for the page. */
  ghost predicate Replaced(s: System, own: map<nat, Role>, pd: FrameNo, page: FrameNo, f: FrameNo, r: Machine)
  {
    var t := s.m.mem[pd][Slot(page)].frame;
    && f !in s.m.used && r.kernel == s.m.kernel && r.used == s.m.used + {f}
    && (forall g: FrameNo :: g in own && g != pd && g != t ==> r.mem[g] == s.m.mem[g])
    && (forall h :: 0 <= h < ENTRIES ==> r.mem[pd][h].frame == s.m.mem[pd][h].frame)
    && (forall h :: 0 <= h < ENTRIES && h != Slot(page) ==> r.mem[pd][h] == s.m.mem[pd][h])
    && r.mem[t][Index(page)].frame == f
    && forall k :: 0 <= k < ENTRIES && k != Index(page) ==> r.mem[t][k] == s.m.mem[t][k]
  }

  lemma MapReplaces(s: System, own: map<nat, Role>, pd: FrameNo, page: FrameNo, flags: Flags)
    requires Inv(s, own) && pd in s.dirs && Free(s.m) > 0 && Private(s.m, pd, Slot(page))
    ensures Replaced(s, own, pd, page, AllocIn(s.m, pd, page, flags).1, AllocIn(s.m, pd, page, flags).0)
  {
    KernelIsNoSpace(s, own);
    AllocFresh(s.m);
    AllocCounts(s.m);
    PrivateTable(s, own, pd, Slot(page));
  }

  /** Frame g, labelled for the page, is reached through no slot of the space any more. */
  lemma NotOwnedThrough(s: System, own: map<nat, Role>, pd: FrameNo, page: FrameNo, f: FrameNo, r: Machine, g: nat,
                        h: nat)
    requires Inv(s, own) && pd in s.dirs && Private(s.m, pd, Slot(page)) && Replaced(s, own, pd, page, f, r)
    requires Labelled(own, g, Page(pd, Slot(page), Index(page))) && h < ENTRIES
    ensures !OwnedThrough(r, pd, h, g)
  {
    KernelIsNoSpace(s, own);
    PrivateTable(s, own, pd, Slot(page));
    if OwnedThrough(r, pd, h, g) {
      var t := s.m.mem[pd][h].frame;
      assert r.mem[s.m.kernel] == s.m.mem[s.m.kernel];
      PrivateTable(s, own, pd, h);
      LeafFramesMember(r, t, ENTRIES, g);
      var k :| 0 <= k < ENTRIES && r.mem[t][k].flags.present && r.mem[t][k].frame == g;
      if h != Slot(page) || k != Index(page) { PrivateLabels(s, own, pd, h, k); }
    }
  }

  /** The frame a page was mapped to is lost when another is mapped there. */
  lemma ReplacedFrameIsLost(s: System, own: map<nat, Role>, pd: FrameNo, page: FrameNo, flags: Flags)
    requires Inv(s, own) && pd in s.dirs && Free(s.m) > 0 && !Shared(s.m, pd, Slot(page))
    requires Leaf(s.m, pd, Slot(page), Index(page)).flags.present
    ensures var g := Leaf(s.m, pd, Slot(page), Index(page)).frame;
      g in Owned(s.m, pd) && g in Destroy(AllocIn(s.m, pd, page, flags).0, pd).used
  {
    var i, j := Slot(page), Index(page);
    var g := Leaf(s.m, pd, i, j).frame;
    var (r, f) := AllocIn(s.m, pd, page, flags);
    MapReplaces(s, own, pd, page, flags);
    PrivateLabels(s, own, pd, i, j);
    assert g in Owned(s.m, pd) by {
      LeafFramesMember(s.m, s.m.mem[pd][i].frame, ENTRIES, g);
      assert OwnedThrough(s.m, pd, i, g);
      TableFramesMember(s.m, pd, ENTRIES, g);
    }
    forall h | 0 <= h < ENTRIES ensures !OwnedThrough(r, pd, h, g) { NotOwnedThrough(s, own, pd, page, f, r, g, h); }
    TableFramesMember(r, pd, ENTRIES, g);
    assert DirOk(s.m, own, pd);
  }

  /** Allocating the page and then destroying the space leaves in use what was in use and not the space's own. */
  ghost predicate Undone(m: Machine, pd: FrameNo, page: FrameNo, flags: Flags)
  {
    Destroy(AllocIn(m, pd, page, flags).0, pd).used == m.used - Owned(m, pd)
  }

  /**
   A page allocation followed by destroy leaves in use exactly what was in use and not the space's own, if and
   only if no frame was free, or the page gets mapped and either its slot is not the kernel's and the page was
   not mapped before, or the kernel's table for the slot maps no other page that is in use elsewhere.
   */
  lemma MapThenDestroyIff(s: System, own: map<nat, Role>, pd: FrameNo, page: FrameNo, flags: Flags)
    requires Inv(s, own) && pd in s.dirs
    ensures Undone(s.m, pd, page, flags) <==>
      || Free(s.m) == 0
      || (MapsPage(s.m, pd, page)
          && if Shared(s.m, pd, Slot(page)) then OthersHarmless(s.m, pd, page)
             else !Leaf(s.m, pd, Slot(page), Index(page)).flags.present)
  {
    var r := AllocIn(s.m, pd, page, flags).0;
    KernelIsNoSpace(s, own);
    assert DirOk(s.m, own, pd);
    AllocCounts(s.m);
    AllocFresh(s.m);
    if Free(s.m) > 0 {
      MapsPageIff(s.m, pd, page, flags);
      if !MapsPage(s.m, pd, page) {
        UnmappedFrameIsLost(s, own, pd, page, flags);
      } else if Shared(s.m, pd, Slot(page)) {
        SharedMapThenDestroyIff(s, own, pd, page, flags);
      } else if Leaf(s.m, pd, Slot(page), Index(page)).flags.present {
        ReplacedFrameIsLost(s, own, pd, page, flags);
      } else {
        AllocStepOwns(s, own, pd, page, flags);
        OwnsNewIsUndone(s.m, r, pd);
      }
    }
  }

  lemma OwnsNewIsUndone(m: Machine, r: Machine, pd: FrameNo)
    requires OwnsNew(m, r, pd)
    ensures r.used - Owned(r, pd) == m.used - Owned(m, pd)
  {
  }
}

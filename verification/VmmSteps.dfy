/**
 Mapping a page: what it keeps, and which translations it changes.
 */
module VmmSteps {
  import opened VmmModel
  import opened VmmInvariant

  /** The labels of m' extend those of m by exactly the frames taken in between. */
  ghost predicate Grows(s: System, own: map<nat, Role>, m': Machine, own': map<nat, Role>)
  {
    Extends(own, own') && s.m.used <= m'.used && own'.Keys == own.Keys + (m'.used - s.m.used)
  }

  /** Taking a free frame, filling it and labelling it disturbs nothing. */
  lemma NewFrame(s: System, own: map<nat, Role>, page: Frame, role: Role) returns (own': map<nat, Role>)
    requires TablesInv(s, own) && Alloc(s.m).1 != 0
    ensures var (m1, f) := Alloc(s.m);
      var m' := WriteFrame(m1, f, page);
      && TablesInv(s.(m := m'), own') && (Inv(s, own) ==> Inv(s.(m := m'), own'))
      && f !in s.m.used && f !in own && m'.used == s.m.used + {f} && own' == own[f := role]
      && SameFrames(s.m, m', own, {})
      && SameTranslations(s, m')
  {
    AllocFresh(s.m);
    var (m1, f) := Alloc(s.m);
    own' := own[f := role];
    CarryInv(s, WriteFrame(m1, f, page), own, own');
  }

  /** A frame taken for the table of slot i of pd, filled and put into the slot. */
  lemma NewTable(s: System, own: map<nat, Role>, pd: FrameNo, i: nat, page: Frame, w: Word)
    returns (own': map<nat, Role>)
    requires TablesInv(s, own) && IsDir(s, pd) && i < ENTRIES && Alloc(s.m).1 != 0
    requires w.flags.present && w.frame == Alloc(s.m).1 && (pd == s.m.kernel ==> NobodyShares(s, i))
    ensures var (m1, t) := Alloc(s.m);
      var m2 := WriteFrame(m1, t, page);
      var m' := Write(m2, pd, i, w);
      && own' == own[t := TableRole(s, pd, i)] && m2.mem[pd] == s.m.mem[pd] && m'.used == s.m.used + {t}
      && t !in s.m.used
      && TablesInv(s.(m := m'), own') && Grows(s, own, m', own') && SameFrames(s.m, m2, own, {})
      && (pd in s.dirs ==> Private(m', pd, i))
      && (Inv(s, own) && (pd in s.dirs ==> page == ZeroFrame()) ==> Inv(s.(m := m'), own'))
      && (forall d: FrameNo, h, j :: IsDir(s, d) && 0 <= h < ENTRIES && 0 <= j < ENTRIES ==>
           Leaf(m', d, h, j) == if d == pd && h == i then page[j] else Leaf(s.m, d, h, j))
  {
    AllocFresh(s.m);
    var (m1, t) := Alloc(s.m);
    own' := NewFrame(s, own, page, TableRole(s, pd, i));
    var s2 := s.(m := WriteFrame(m1, t, page));
    assert pd in own by { assert pd in s.dirs ==> DirOk(s.m, own, pd); }
    assert s2.m.mem[pd] == s.m.mem[pd];
    if pd == s.m.kernel {
      forall d | d in s.dirs ensures !Shared(s2.m, d, i) {
        assert DirOk(s.m, own, d);
        assert !Shared(s.m, d, i);
      }
    }
    SetSlot(s2, own', pd, i, w);
  }

  lemma PrivatiseKeeps(s: System, own: map<nat, Role>, pd: FrameNo, i: nat, user: bool) returns (own': map<nat, Role>)
    requires TablesInv(s, own) && IsDir(s, pd) && i < ENTRIES
    ensures var (m', ok) := Privatise(s.m, pd, i, user);
      && TablesInv(s.(m := m'), own') && Grows(s, own, m', own') && SameTranslations(s, m') && m'.kernel == s.m.kernel
      && (!ok ==> m' == s.m && own' == own)
      && (pd != s.m.kernel && Shared(s.m, pd, i) && ok ==> Private(m', pd, i))
      && (!(pd != s.m.kernel && Shared(s.m, pd, i)) ==> ok && m' == s.m && own' == own)
  {
    own' := own;
    AllocFresh(s.m);
    if pd != s.m.kernel && Shared(s.m, pd, i) && Alloc(s.m).1 != 0 {
      var e := s.m.mem[pd][i];
      own' := NewTable(s, own, pd, i, s.m.mem[e.frame], WithUser(Word(Alloc(s.m).1, e.flags), user));
    }
  }

  /** A kernel slot that points to a new table is shared by no directory. */
  lemma NewSlotUnshared(s: System, own: map<nat, Role>, t: FrameNo, i: nat, s2: System, w: Word)
    requires TablesInv(s, own) && t !in own && i < ENTRIES && w.frame == t
    requires s2.m.kernel == s.m.kernel && s2.dirs == s.dirs && SameFrames(s.m, s2.m, own, {})
    ensures var m' := Write(s2.m, s.m.kernel, i, w);
      forall d, h :: d in s.dirs && 0 <= h < ENTRIES && Shared(m', d, h) ==> Shared(s.m, d, h)
  {
    var m' := Write(s2.m, s.m.kernel, i, w);
    forall d, h | d in s.dirs && 0 <= h < ENTRIES && Shared(m', d, h) ensures Shared(s.m, d, h) {
      assert DirOk(s.m, own, d);
      assert m'.mem[d] == s.m.mem[d];
      TableIsLabelled(s, own, d, h);
    }
  }

  lemma AddTableKeeps(s: System, own: map<nat, Role>, pd: FrameNo, i: nat, user: bool) returns (own': map<nat, Role>)
    requires TablesInv(s, own) && IsDir(s, pd) && i < ENTRIES
    ensures var (m', ok) := AddTable(s.m, pd, i, user);
      && TablesInv(s.(m := m'), own') && Grows(s, own, m', own') && SameTranslations(s, m') && m'.kernel == s.m.kernel
      && (Inv(s, own) ==> Inv(s.(m := m'), own'))
      && (!ok ==> m' == s.m && own' == own)
      && (ok ==> m'.mem[pd][i].flags.present && (pd in s.dirs && !Shared(s.m, pd, i) ==> Private(m', pd, i)))
      && (s.m.mem[pd][i].flags.present ==> m' == s.m && own' == own)
      && (ok && !s.m.mem[pd][i].flags.present ==> m'.mem[pd][i].flags.user == user)
      && (pd == s.m.kernel ==> forall d, h :: d in s.dirs && 0 <= h < ENTRIES && Shared(m', d, h) ==> Shared(s.m, d, h))
  {
    own' := own;
    AllocFresh(s.m);
    if !s.m.mem[pd][i].flags.present && Alloc(s.m).1 != 0 {
      var t := Alloc(s.m).1;
      var w := Word(t, Flags(true, true, user, 0));
      own' := NewTable(s, own, pd, i, ZeroFrame(), w);
      if pd == s.m.kernel { NewSlotUnshared(s, own, t, i, s.(m := WriteFrame(Alloc(s.m).0, t, ZeroFrame())), w); }
    }
  }

  /** Setting VMM_USER in the kernel's directory is harmless: nothing changes, or nobody shares the slot. */
  ghost predicate KernelUserOk(s: System, pd: FrameNo, i: nat, flags: Flags)
    requires i < ENTRIES
  {
    pd == s.m.kernel && flags.user && s.m.mem[pd][i].flags.present ==> s.m.mem[pd][i].flags.user || NobodyShares(s, i)
  }

  /** Page (h, k) of directory d is not the one being mapped, directly or through a shared kernel slot. */
  ghost predicate Elsewhere(s: System, pd: FrameNo, page: FrameNo, d: FrameNo, h: nat, k: nat)
  {
    !(h == Slot(page) && k == Index(page) && (d == pd || (pd == s.m.kernel && Shared(s.m, d, h))))
  }

  /** The last two writes of a mapping, once the slot holds the directory's own table. */
  lemma EnterKeeps(s: System, own: map<nat, Role>, pd: FrameNo, page: FrameNo, phys: FrameNo, flags: Flags)
    requires TablesInv(s, own) && IsDir(s, pd) && s.m.mem[pd][Slot(page)].flags.present
    requires pd in s.dirs ==> Private(s.m, pd, Slot(page))
    requires KernelUserOk(s, pd, Slot(page), flags)
    ensures var m1 := Write(s.m, pd, Slot(page), WithUser(s.m.mem[pd][Slot(page)], flags.user));
      var m' := Write(m1, m1.mem[pd][Slot(page)].frame, Index(page), Word(phys, flags.(present := true)));
      && TablesInv(s.(m := m'), own)
      && (Inv(s, own) && (pd in s.dirs ==> Labelled(own, phys, Page(pd, Slot(page), Index(page)))) ==>
        Inv(s.(m := m'), own))
      && Leaf(m', pd, Slot(page), Index(page)) == Word(phys, flags.(present := true))
      && (forall d: FrameNo, h, k ::
        IsDir(s, d) && 0 <= h < ENTRIES && 0 <= k < ENTRIES && Elsewhere(s, pd, page, d, h, k) ==>
           Leaf(m', d, h, k) == Leaf(s.m, d, h, k))
  {
    var i, j := Slot(page), Index(page);
    var w := WithUser(s.m.mem[pd][i], flags.user);
    TableIsLabelled(s, own, pd, i);
    if pd in s.dirs && Inv(s, own) {
      forall k | 0 <= k < ENTRIES && s.m.mem[w.frame][k].flags.present
        ensures Labelled(own, s.m.mem[w.frame][k].frame, Page(pd, i, k))
      {
        assert PagesOk(s.m, own, pd);
        assert PageOk(s.m, own, pd, i, k);
      }
    }
    SetSlot(s, own, pd, i, w);
    var s1 := s.(m := Write(s.m, pd, i, w));
    SetLeaf(s1, own, pd, i, j, Word(phys, flags.(present := true)));
    forall d: FrameNo, h, k | IsDir(s, d) && 0 <= h < ENTRIES && 0 <= k < ENTRIES && Elsewhere(s, pd, page, d, h, k)
      ensures Leaf(Write(s1.m, w.frame, j, Word(phys, flags.(present := true))), d, h, k) == Leaf(s.m, d, h, k)
    {
      assert d in s.dirs ==> DirOk(s.m, own, d);
      if s.m.mem[d][h].flags.present { TableIsLabelled(s, own, d, h); }
      assert !Reaches(s1, pd, i, j, d, h, k);
    }
  }

  /**
   Mapping keeps directories and tables free of aliasing, makes exactly the mapped page translate to
   the given frame, and changes no other translation of any directory, even when a shared kernel
   table had to be copied; a mapping that fails changes no translation at all.
   */
  lemma MapKeeps(s: System, own: map<nat, Role>, pd: FrameNo, page: FrameNo, phys: FrameNo, flags: Flags)
    returns (own': map<nat, Role>)
    requires TablesInv(s, own) && IsDir(s, pd) && KernelUserOk(s, pd, Slot(page), flags)
    ensures var (m', ok) := MapIn(s.m, pd, page, phys, flags);
      && TablesInv(s.(m := m'), own') && Grows(s, own, m', own')
      && (Inv(s, own) && (pd in s.dirs ==>
        !Shared(s.m, pd, Slot(page)) && Labelled(own, phys, Page(pd, Slot(page), Index(page))))
          ==> Inv(s.(m := m'), own'))
      && (!ok ==> m' == s.m)
      && (ok ==> Leaf(m', pd, Slot(page), Index(page)) == Word(phys, flags.(present := true)))
      && (forall d: FrameNo, h, k ::
        IsDir(s, d) && 0 <= h < ENTRIES && 0 <= k < ENTRIES && (!ok || Elsewhere(s, pd, page, d, h, k)) ==>
           Leaf(m', d, h, k) == Leaf(s.m, d, h, k))
  {
    var i := Slot(page);
    var (m1, ok1) := Privatise(s.m, pd, i, flags.user);
    var own1 := PrivatiseKeeps(s, own, pd, i, flags.user);
    own' := own1;
    if ok1 {
      var s1 := s.(m := m1);
      var (m2, ok2) := AddTable(m1, pd, i, flags.user);
      own' := AddTableKeeps(s1, own1, pd, i, flags.user);
      if ok2 {
        EnterKeeps(s1.(m := m2), own', pd, page, phys, flags);
        assert forall d: FrameNo, h, k :: IsDir(s, d) && 0 <= h < ENTRIES && Elsewhere(s, pd, page, d, h, k) ==>
          Elsewhere(s1.(m := m2), pd, page, d, h, k);
      }
    }
  }
}

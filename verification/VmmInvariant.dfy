/**
 Ownership of frames. Every frame that a directory, table or page lives in is labelled with the
 one place that may refer to it; since a frame has one label, two references never alias.
 */
module VmmInvariant {
  import opened VmmModel

  datatype Role = KernelDir | Dir | KernelTable(i: nat) | Table(pd: FrameNo, i: nat) | Page(pd: FrameNo, i: nat, j: nat)

  datatype System = System(m: Machine, dirs: set<FrameNo>)

  ghost predicate Labelled(own: map<nat, Role>, f: nat, role: Role) { f in own && own[f] == role }

  /** Slot i of directory pd is absent, the kernel's own, or a table labelled for this slot alone. */
  ghost predicate SlotOk(m: Machine, own: map<nat, Role>, pd: FrameNo, i: nat)
    requires i < ENTRIES
  {
    Private(m, pd, i) ==> Labelled(own, m.mem[pd][i].frame, Table(pd, i))
  }

  /** Entry j of the table in private slot i is absent or names a page labelled for it alone. */
  ghost predicate PageOk(m: Machine, own: map<nat, Role>, pd: FrameNo, i: nat, j: nat)
    requires i < ENTRIES && j < ENTRIES
  {
    Private(m, pd, i) && Leaf(m, pd, i, j).flags.present ==> Labelled(own, Leaf(m, pd, i, j).frame, Page(pd, i, j))
  }

  ghost predicate KernelOk(m: Machine, own: map<nat, Role>)
  {
    && Labelled(own, m.kernel, KernelDir)
    && forall i :: 0 <= i < ENTRIES && m.mem[m.kernel][i].flags.present ==>
         Labelled(own, m.mem[m.kernel][i].frame, KernelTable(i))
  }

  ghost predicate DirOk(m: Machine, own: map<nat, Role>, pd: FrameNo)
  {
    && Labelled(own, pd, Dir)
    && (forall i :: 0 <= i < ENTRIES ==> SlotOk(m, own, pd, i))
  }

  ghost predicate PagesOk(m: Machine, own: map<nat, Role>, pd: FrameNo)
  {
    forall i, j :: 0 <= i < ENTRIES && 0 <= j < ENTRIES ==> PageOk(m, own, pd, i, j)
  }

  /** No aliasing among directories and tables, all of them in used frames. */
  ghost predicate TablesInv(s: System, own: map<nat, Role>)
  {
    && Sane(s.m)
    && own.Keys <= s.m.used
    && 0 !in own
    && KernelOk(s.m, own)
    && forall pd :: pd in s.dirs ==> DirOk(s.m, own, pd)
  }

  /** In addition, every page of a private table belongs to that table entry alone. */
  ghost predicate Inv(s: System, own: map<nat, Role>)
  {
    TablesInv(s, own) && forall pd :: pd in s.dirs ==> PagesOk(s.m, own, pd)
  }

  /** Contents of all labelled frames other than those in except are the same. */
  ghost predicate SameFrames(m: Machine, m': Machine, own: map<nat, Role>, except: set<nat>)
  {
    && m'.kernel == m.kernel && m'.total == m.total
    && forall f: FrameNo :: f in own && f !in except ==> m'.mem[f] == m.mem[f]
  }

  /** What the invariant means: a private table is reachable from no other slot of any directory. */
  lemma PrivateTablesAreNotShared(s: System, own: map<nat, Role>, pd: FrameNo, i: nat, pd': FrameNo, i': nat)
    requires TablesInv(s, own) && pd in s.dirs && i < ENTRIES && i' < ENTRIES && Private(s.m, pd, i)
    requires pd' in s.dirs || pd' == s.m.kernel
    requires s.m.mem[pd'][i'].flags.present && s.m.mem[pd'][i'].frame == s.m.mem[pd][i].frame
    ensures pd' == pd && i' == i
    ensures s.m.mem[pd][i].frame in s.m.used
  {
    assert SlotOk(s.m, own, pd, i);
    if pd' in s.dirs { assert SlotOk(s.m, own, pd', i'); }
  }

  lemma {:induction false} LeafFramesMember(m: Machine, t: FrameNo, n: nat, f: nat)
    requires n <= ENTRIES
    ensures f in LeafFrames(m, t, n) <==> exists j :: 0 <= j < n && m.mem[t][j].flags.present && m.mem[t][j].frame == f
  {
    if n > 0 { LeafFramesMember(m, t, n - 1, f); }
  }

  /** Frame f is the table of private slot i of pd, or a page of that table. */
  ghost predicate OwnedThrough(m: Machine, pd: FrameNo, i: nat, f: nat)
    requires i < ENTRIES
  {
    Private(m, pd, i) && f in LeafFrames(m, m.mem[pd][i].frame, ENTRIES) + {m.mem[pd][i].frame}
  }

  lemma {:induction false} TableFramesMember(m: Machine, pd: FrameNo, n: nat, f: nat)
    requires n <= ENTRIES
    ensures f in TableFrames(m, pd, n) <==> exists i :: 0 <= i < n && OwnedThrough(m, pd, i, f)
  {
    if n > 0 {
      TableFramesMember(m, pd, n - 1, f);
      assert OwnedThrough(m, pd, n - 1, f) || !OwnedThrough(m, pd, n - 1, f);
    }
  }

  ghost predicate RoleOf(role: Role, pd: FrameNo)
  {
    match role
    case Table(d, _) => d == pd
    case Page(d, _, _) => d == pd
    case _ => false
  }

  /** Everything an address space owns is labelled as its own. */
  lemma OwnedIsLabelled(s: System, own: map<nat, Role>, pd: FrameNo, f: nat)
    requires Inv(s, own) && pd in s.dirs && f in Owned(s.m, pd)
    ensures f in own && (f == pd || RoleOf(own[f], pd))
  {
    if f != pd {
      TableFramesMember(s.m, pd, ENTRIES, f);
      var i :| 0 <= i < ENTRIES && OwnedThrough(s.m, pd, i, f);
      assert SlotOk(s.m, own, pd, i);
      if f != s.m.mem[pd][i].frame {
        var t := s.m.mem[pd][i].frame;
        LeafFramesMember(s.m, t, ENTRIES, f);
        var j :| 0 <= j < ENTRIES && s.m.mem[t][j].flags.present && s.m.mem[t][j].frame == f;
        assert PageOk(s.m, own, pd, i, j);
      }
    }
  }

  // ---------------------------------------------------------------- carrying the invariant

  ghost predicate Extends(own: map<nat, Role>, own': map<nat, Role>)
  {
    forall f :: f in own ==> f in own' && own'[f] == own[f]
  }

  ghost predicate IsDir(s: System, pd: FrameNo) { pd in s.dirs || pd == s.m.kernel }

  /** The table behind a present slot of any directory is labelled, and not as a directory or page. */
  lemma TableIsLabelled(s: System, own: map<nat, Role>, pd: FrameNo, i: nat)
    requires TablesInv(s, own) && IsDir(s, pd) && i < ENTRIES && s.m.mem[pd][i].flags.present
    ensures s.m.mem[pd][i].frame in own && pd in own
    ensures var r := own[s.m.mem[pd][i].frame]; r == KernelTable(i) || (r == Table(pd, i) && Private(s.m, pd, i))
    ensures own[s.m.mem[pd][i].frame] == KernelTable(i) <==> Shared(s.m, pd, i)
  {
    if pd in s.dirs { assert SlotOk(s.m, own, pd, i); }
  }

  /** All directories of s translate every page alike in m and m'. */
  ghost predicate SameTranslations(s: System, m': Machine)
  {
    forall pd: FrameNo, i, j :: IsDir(s, pd) && 0 <= i < ENTRIES && 0 <= j < ENTRIES ==>
      Leaf(m', pd, i, j) == Leaf(s.m, pd, i, j)
  }

  /** Writing only unlabelled frames changes no labelled one, so the invariant carries over. */
  lemma CarryInv(s: System, m': Machine, own: map<nat, Role>, own': map<nat, Role>)
    requires TablesInv(s, own) && SameFrames(s.m, m', own, {}) && Extends(own, own')
    requires Sane(m') && own'.Keys <= m'.used && 0 !in own'
    ensures TablesInv(s.(m := m'), own')
    ensures Inv(s, own) ==> Inv(s.(m := m'), own')
    ensures SameTranslations(s, m')
  {
    var s' := s.(m := m');
    forall pd: FrameNo, i, j | IsDir(s, pd) && 0 <= i < ENTRIES && 0 <= j < ENTRIES
      ensures m'.mem[pd] == s.m.mem[pd] && Leaf(m', pd, i, j) == Leaf(s.m, pd, i, j)
    {
      assert pd in s.dirs ==> DirOk(s.m, own, pd);
      if s.m.mem[pd][i].flags.present { TableIsLabelled(s, own, pd, i); }
    }
    forall pd | pd in s.dirs ensures DirOk(m', own', pd) {
      assert DirOk(s.m, own, pd);
      forall i | 0 <= i < ENTRIES ensures SlotOk(m', own', pd, i) { assert SlotOk(s.m, own, pd, i); }
    }
    if Inv(s, own) {
      forall pd, i, j | pd in s.dirs && 0 <= i < ENTRIES && 0 <= j < ENTRIES ensures PageOk(m', own', pd, i, j) {
        assert PageOk(s.m, own, pd, i, j);
      }
    }
  }

  /** No other directory shares slot i with the kernel. */
  ghost predicate NobodyShares(s: System, i: nat)
    requires i < ENTRIES
  {
    forall pd :: pd in s.dirs ==> !Shared(s.m, pd, i)
  }

  ghost function TableRole(s: System, pd: FrameNo, i: nat): Role
  {
    if pd == s.m.kernel then KernelTable(i) else Table(pd, i)
  }

  /** The pages named by table t are labelled for slot i of pd. */
  ghost predicate TablePagesOk(m: Machine, own: map<nat, Role>, pd: FrameNo, i: nat, t: FrameNo)
  {
    forall j :: 0 <= j < ENTRIES && m.mem[t][j].flags.present ==> Labelled(own, m.mem[t][j].frame, Page(pd, i, j))
  }

  /** Pointing a slot at a table labelled for it keeps the invariant and every other translation. */
  lemma SetSlot(s: System, own: map<nat, Role>, pd: FrameNo, i: nat, w: Word)
    requires TablesInv(s, own) && IsDir(s, pd) && i < ENTRIES && w.flags.present
    requires Labelled(own, w.frame, TableRole(s, pd, i))
    requires pd == s.m.kernel ==> w == s.m.mem[pd][i] || NobodyShares(s, i)
    ensures var s' := s.(m := Write(s.m, pd, i, w));
      && TablesInv(s', own)
      && (pd in s.dirs ==> Private(s'.m, pd, i))
      && (Inv(s, own) && (pd in s.dirs ==> TablePagesOk(s.m, own, pd, i, w.frame)) ==> Inv(s', own))
    ensures forall d: FrameNo, h, j :: IsDir(s, d) && 0 <= h < ENTRIES && 0 <= j < ENTRIES ==>
      Leaf(Write(s.m, pd, i, w), d, h, j) == if d == pd && h == i then s.m.mem[w.frame][j] else Leaf(s.m, d, h, j)
  {
    var m' := Write(s.m, pd, i, w);
    var s' := s.(m := m');
    assert pd in own by { assert pd in s.dirs ==> DirOk(s.m, own, pd); }
    forall d: FrameNo, h, j | IsDir(s, d) && 0 <= h < ENTRIES && 0 <= j < ENTRIES
      ensures Leaf(m', d, h, j) == if d == pd && h == i then s.m.mem[w.frame][j] else Leaf(s.m, d, h, j)
    {
      assert d in s.dirs ==> DirOk(s.m, own, d);
      if s.m.mem[d][h].flags.present { TableIsLabelled(s, own, d, h); }
    }
    forall d | d in s.dirs ensures DirOk(m', own, d) {
      assert DirOk(s.m, own, d);
      forall h | 0 <= h < ENTRIES ensures SlotOk(m', own, d, h) { assert SlotOk(s.m, own, d, h); }
    }
    if Inv(s, own) && (pd in s.dirs ==> TablePagesOk(s.m, own, pd, i, w.frame)) {
      forall d, h, j | d in s.dirs && 0 <= h < ENTRIES && 0 <= j < ENTRIES ensures PageOk(m', own, d, h, j) {
        assert PageOk(s.m, own, d, h, j);
      }
    }
  }

  /** Directory d sees entry j of slot i of pd at (h, k): it is pd itself, or shares the kernel's slot. */
  ghost predicate Reaches(s: System, pd: FrameNo, i: nat, j: nat, d: FrameNo, h: nat, k: nat)
    requires i < ENTRIES
  {
    h == i && k == j && (d == pd || (pd == s.m.kernel && Shared(s.m, d, i)))
  }

  /** Writing an entry of a directory's own table changes that one translation only. */
  lemma SetLeaf(s: System, own: map<nat, Role>, pd: FrameNo, i: nat, j: nat, w: Word)
    requires TablesInv(s, own) && IsDir(s, pd) && i < ENTRIES && j < ENTRIES
    requires s.m.mem[pd][i].flags.present && (pd in s.dirs ==> Private(s.m, pd, i))
    ensures var s' := s.(m := Write(s.m, s.m.mem[pd][i].frame, j, w));
      && TablesInv(s', own)
      && (Inv(s, own) && (pd in s.dirs && w.flags.present ==> Labelled(own, w.frame, Page(pd, i, j))) ==> Inv(s', own))
    ensures forall d: FrameNo, h, k ::
      IsDir(s, d) && 0 <= h < ENTRIES && 0 <= k < ENTRIES && !Reaches(s, pd, i, j, d, h, k) ==>
      Leaf(Write(s.m, s.m.mem[pd][i].frame, j, w), d, h, k) == Leaf(s.m, d, h, k)
    ensures Leaf(Write(s.m, s.m.mem[pd][i].frame, j, w), pd, i, j) == w
  {
    var t := s.m.mem[pd][i].frame;
    var m' := Write(s.m, t, j, w);
    var s' := s.(m := m');
    TableIsLabelled(s, own, pd, i);
    forall d: FrameNo | IsDir(s, d) ensures d in own && d != t && m'.mem[d] == s.m.mem[d] {
      assert d in s.dirs ==> DirOk(s.m, own, d);
    }
    forall d: FrameNo, h, k | IsDir(s, d) && 0 <= h < ENTRIES && 0 <= k < ENTRIES && !Reaches(s, pd, i, j, d, h, k)
      ensures Leaf(m', d, h, k) == Leaf(s.m, d, h, k)
    {
      if s.m.mem[d][h].flags.present { TableIsLabelled(s, own, d, h); }
    }
    forall d | d in s.dirs ensures DirOk(m', own, d) {
      assert DirOk(s.m, own, d);
      forall h | 0 <= h < ENTRIES ensures SlotOk(m', own, d, h) { assert SlotOk(s.m, own, d, h); }
    }
    if Inv(s, own) && (pd in s.dirs && w.flags.present ==> Labelled(own, w.frame, Page(pd, i, j))) {
      forall d, h, k | d in s.dirs && 0 <= h < ENTRIES && 0 <= k < ENTRIES ensures PageOk(m', own, d, h, k) {
        assert PageOk(s.m, own, d, h, k);
      }
    }
  }
}

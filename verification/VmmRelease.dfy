/**
 The frames that destroying an address space frees, one by one in the order of the code: no frame
 is freed twice, and each is in use when its turn comes.
 */
module VmmRelease {
  import opened VmmModel
  import opened VmmInvariant

  /** Calls of pmm_free_page for the first n entries of table t. */
  function LeafList(m: Machine, t: FrameNo, n: nat): seq<nat>
    requires n <= ENTRIES
  {
    if n == 0 then []
    else LeafList(m, t, n - 1) + if m.mem[t][n - 1].flags.present then [m.mem[t][n - 1].frame] else []
  }

  /** Those for the first n slots of pd: the pages of a private table, then the table. */
  function TableList(m: Machine, pd: FrameNo, n: nat): seq<nat>
    requires n <= ENTRIES
  {
    if n == 0 then []
    else
      TableList(m, pd, n - 1)
      + if Private(m, pd, n - 1) then LeafList(m, m.mem[pd][n - 1].frame, ENTRIES) + [m.mem[pd][n - 1].frame] else []
  }

  /** All of them, the directory last. */
  function FreedList(m: Machine, pd: FrameNo): seq<nat> { TableList(m, pd, ENTRIES) + [pd] }

  ghost predicate Once(frames: seq<nat>) { forall a, b :: 0 <= a < b < |frames| ==> frames[a] != frames[b] }

  /** Two lists without repetition and without a common frame, one behind the other. */
  lemma OnceConcat(x: seq<nat>, y: seq<nat>)
    requires Once(x) && Once(y) && forall a, b :: 0 <= a < |x| && 0 <= b < |y| ==> x[a] != y[b]
    ensures Once(x + y)
  {
  }

  /** The page is labelled for one of the first n entries of slot i. */
  ghost predicate PageBelow(own: map<nat, Role>, pd: FrameNo, i: nat, n: nat, f: nat)
  {
    f in own && own[f].Page? && own[f].pd == pd && own[f].i == i && own[f].j < n
  }

  lemma {:induction false} LeavesOnce(s: System, own: map<nat, Role>, pd: FrameNo, i: nat, n: nat)
    requires Inv(s, own) && pd in s.dirs && i < ENTRIES && Private(s.m, pd, i) && n <= ENTRIES
    ensures var l := LeafList(s.m, s.m.mem[pd][i].frame, n);
      Once(l) && forall a :: 0 <= a < |l| ==> PageBelow(own, pd, i, n, l[a])
  {
    if n > 0 {
      LeavesOnce(s, own, pd, i, n - 1);
      assert PagesOk(s.m, own, pd);
      assert PageOk(s.m, own, pd, i, n - 1);
      var l, e := LeafList(s.m, s.m.mem[pd][i].frame, n - 1), Leaf(s.m, pd, i, n - 1);
      if e.flags.present { OnceConcat(l, [e.frame]); }
    }
  }

  /** The frame is labelled as a table of one of the first n slots, or a page of one. */
  ghost predicate SlotBelow(own: map<nat, Role>, pd: FrameNo, n: nat, f: nat)
  {
    f in own && RoleOf(own[f], pd) && own[f].i < n
  }

  /** The frames freed for one private slot. */
  lemma {:induction false} SlotOnce(s: System, own: map<nat, Role>, pd: FrameNo, i: nat)
    requires Inv(s, own) && pd in s.dirs && i < ENTRIES && Private(s.m, pd, i)
    ensures var l := LeafList(s.m, s.m.mem[pd][i].frame, ENTRIES) + [s.m.mem[pd][i].frame];
      && Once(l)
      && forall a :: 0 <= a < |l| ==> SlotBelow(own, pd, i + 1, l[a]) && !SlotBelow(own, pd, i, l[a])
  {
    LeavesOnce(s, own, pd, i, ENTRIES);
    assert DirOk(s.m, own, pd);
    assert SlotOk(s.m, own, pd, i);
    OnceConcat(LeafList(s.m, s.m.mem[pd][i].frame, ENTRIES), [s.m.mem[pd][i].frame]);
  }

  lemma {:induction false} TablesOnce(s: System, own: map<nat, Role>, pd: FrameNo, n: nat)
    requires Inv(s, own) && pd in s.dirs && n <= ENTRIES
    ensures var l := TableList(s.m, pd, n);
      Once(l) && forall a :: 0 <= a < |l| ==> SlotBelow(own, pd, n, l[a])
  {
    if n > 0 {
      TablesOnce(s, own, pd, n - 1);
      if Private(s.m, pd, n - 1) {
        SlotOnce(s, own, pd, n - 1);
        var t := s.m.mem[pd][n - 1].frame;
        OnceConcat(TableList(s.m, pd, n - 1), LeafList(s.m, t, ENTRIES) + [t]);
      }
    }
  }

  lemma {:induction false} LeafListFrames(m: Machine, t: FrameNo, n: nat, f: nat)
    requires n <= ENTRIES
    ensures f in LeafList(m, t, n) <==> f in LeafFrames(m, t, n)
  {
    if n > 0 { LeafListFrames(m, t, n - 1, f); }
  }

  lemma {:induction false} TableListFrames(m: Machine, pd: FrameNo, n: nat, f: nat)
    requires n <= ENTRIES
    ensures f in TableList(m, pd, n) <==> f in TableFrames(m, pd, n)
  {
    if n > 0 {
      TableListFrames(m, pd, n - 1, f);
      if Private(m, pd, n - 1) { LeafListFrames(m, m.mem[pd][n - 1].frame, ENTRIES, f); }
    }
  }

  /** Null and the kernel's own directory are never destroyed, and destroying changes no word of memory. */
  lemma DestroyKeepsKernel(m: Machine, pd: FrameNo)
    ensures Destroy(m, 0) == m && Destroy(m, m.kernel) == m
    ensures Destroy(m, pd) == m.(used := Destroy(m, pd).used) && Destroy(m, pd).used <= m.used
  {
  }

  /** Destroying a space frees each frame it owns once, and every one of them was in use. */
  lemma {:induction false} DestroyFreesOnce(s: System, own: map<nat, Role>, pd: FrameNo)
    requires Inv(s, own) && pd in s.dirs
    ensures var l := FreedList(s.m, pd);
      && Once(l) && (forall f :: f in l <==> f in Owned(s.m, pd))
      && (forall f :: f in l ==> f in s.m.used)
  {
    TablesOnce(s, own, pd, ENTRIES);
    assert DirOk(s.m, own, pd);
    OnceConcat(TableList(s.m, pd, ENTRIES), [pd]);
    forall f ensures f in TableList(s.m, pd, ENTRIES) <==> f in TableFrames(s.m, pd, ENTRIES) {
      TableListFrames(s.m, pd, ENTRIES, f);
    }
  }
}

/**
 How many frames page allocations take: one for each page, and one for the table of each directory
 slot that is absent when its first page is mapped.
 */
module ElfCount {
  import opened Folding
  import opened VmmModel
  import opened VmmInvariant
  import opened VmmCount
  import opened VmmRuns
  import opened ElfMemory

  ghost function PresentSlots(m: Machine, pd: FrameNo): set<nat>
  {
    set i | 0 <= i < ENTRIES && m.mem[pd][i].flags.present
  }

  function SlotsOf(pages: seq<FrameNo>): set<nat>
  {
    if pages == [] then {} else {Slot(pages[0])} + SlotsOf(pages[1..])
  }

  /** Frames that allocating the pages takes, with tables for the given slots already there. */
  ghost function Cost(present: set<nat>, pages: seq<FrameNo>): nat { |pages| + |SlotsOf(pages) - present| }

  lemma {:induction false} SlotsOfConcat(a: seq<FrameNo>, b: seq<FrameNo>)
    ensures SlotsOf(a + b) == SlotsOf(a) + SlotsOf(b)
  {
    if a == [] {
      assert a + b == b;
    } else {
      assert (a + b)[1..] == a[1..] + b;
      SlotsOfConcat(a[1..], b);
    }
  }

  lemma {:induction false} CostConcat(present: set<nat>, a: seq<FrameNo>, b: seq<FrameNo>)
    ensures Cost(present, a + b) == Cost(present, a) + Cost(present + SlotsOf(a), b)
  {
    SlotsOfConcat(a, b);
    var x, y := SlotsOf(a) - present, SlotsOf(b) - (present + SlotsOf(a));
    assert SlotsOf(a + b) - present == x + y;
    assert x !! y;
  }

  lemma {:induction false} CostOfOne(present: set<nat>, p: FrameNo)
    ensures SlotsOf([p]) == {Slot(p)} && Cost(present, [p]) == if Slot(p) in present then 1 else 2
  {
    assert SlotsOf([p]) == {Slot(p)};
    if Slot(p) in present {
      assert SlotsOf([p]) - present == {};
    } else {
      assert SlotsOf([p]) - present == {Slot(p)};
    }
  }

  /** A frame for page i is left when its turn comes, and none for the table it needs. */
  ghost predicate StrandsAt(present: set<nat>, pages: seq<FrameNo>, b: nat, i: nat)
    requires i < |pages|
  {
    Cost(present, pages[..i]) + 1 == b && Slot(pages[i]) !in present + SlotsOf(pages[..i])
  }

  /** With b frames, allocating the pages in order comes to a page that gets a frame and no table. */
  ghost predicate Strands(present: set<nat>, pages: seq<FrameNo>, b: nat)
  {
    exists i :: 0 <= i < |pages| && StrandsAt(present, pages, b, i)
  }

  /** Within the first of two lists, and within the second after paying for the first. */
  lemma {:induction false} StrandsAtConcat(present: set<nat>, x: seq<FrameNo>, y: seq<FrameNo>, b: nat, i: nat)
    requires i < |x| + |y|
    ensures i < |x| ==> (StrandsAt(present, x + y, b, i) <==> StrandsAt(present, x, b, i))
    ensures i >= |x| ==>
      (StrandsAt(present, x + y, b, i) <==>
       b > Cost(present, x) && StrandsAt(present + SlotsOf(x), y, b - Cost(present, x), i - |x|))
  {
    if i < |x| {
      assert (x + y)[..i] == x[..i];
    } else {
      var k := i - |x|;
      assert (x + y)[..i] == x + y[..k];
      CostConcat(present, x, y[..k]);
      SlotsOfConcat(x, y[..k]);
      assert present + SlotsOf(x + y[..k]) == present + SlotsOf(x) + SlotsOf(y[..k]);
    }
  }

  lemma {:induction false} StrandsConcat(present: set<nat>, x: seq<FrameNo>, y: seq<FrameNo>, b: nat)
    ensures Strands(present, x + y, b) <==>
      || Strands(present, x, b)
      || (b >= Cost(present, x) && Strands(present + SlotsOf(x), y, b - Cost(present, x)))
  {
    if Strands(present, x + y, b) {
      var i :| 0 <= i < |x + y| && StrandsAt(present, x + y, b, i);
      StrandsAtConcat(present, x, y, b, i);
    }
    if Strands(present, x, b) {
      var i :| 0 <= i < |x| && StrandsAt(present, x, b, i);
      StrandsAtConcat(present, x, y, b, i);
    }
    if b >= Cost(present, x) && Strands(present + SlotsOf(x), y, b - Cost(present, x)) {
      var k :| 0 <= k < |y| && StrandsAt(present + SlotsOf(x), y, b - Cost(present, x), k);
      StrandsAtConcat(present, x, y, b, |x| + k);
    }
  }

  lemma {:induction false} StrandsOne(present: set<nat>, p: FrameNo, b: nat)
    ensures Strands(present, [p], b) <==> b == 1 && Slot(p) !in present
  {
    assert [p][..0] == [] && SlotsOf([]) - present == {};
    assert StrandsAt(present, [p], b, 0) <==> b == 1 && Slot(p) !in present;
  }

  /** How a series of page allocations ends: all mapped, no frame for a page, or a frame but no table for it. */
  datatype Ending = Done | MissingFrame | MissingTable

  /** The pages were allocated one after the other, and the frames free at the start decided how that ended. */
  ghost predicate SpendsSo(pd: FrameNo, m: Machine, r: Machine, e: Ending, pages: seq<FrameNo>)
  {
    var present := PresentSlots(m, pd);
    var cost := Cost(present, pages);
    && (e.Done? <==> Free(m) >= cost)
    && (e.Done? ==> Free(r) == Free(m) - cost && PresentSlots(r, pd) == present + SlotsOf(pages))
    && (e.MissingTable? <==> Strands(present, pages, Free(m)))
  }

  /** The same, folded up for proofs that only pass it on. */
  ghost predicate Spends(pd: FrameNo, m: Machine, r: Machine, e: Ending, pages: seq<FrameNo>)
  {
    forall z: int {:trigger Unfold(z)} :: Unfold(z) ==> SpendsSo(pd, m, r, e, pages)
  }

  lemma SpendsIs(pd: FrameNo, m: Machine, r: Machine, e: Ending, pages: seq<FrameNo>)
    ensures Spends(pd, m, r, e, pages) <==> SpendsSo(pd, m, r, e, pages)
  {
    assert Unfold(0);
  }

  lemma {:induction false} SpendsNothing(pd: FrameNo, m: Machine)
    ensures Spends(pd, m, m, Done, [])
  {
    assert SlotsOf([]) - PresentSlots(m, pd) == {};
    SpendsIs(pd, m, m, Done, []);
  }

  /** Once the pages of a are paid for, those of b are judged by what is left. */
  lemma {:induction false} BudgetAfter(present: set<nat>, present1: set<nat>, a: seq<FrameNo>, b: seq<FrameNo>, n: nat,
                                       n1: nat)
    requires present1 == present + SlotsOf(a) && n == Cost(present, a) + n1 && !Strands(present, a, n)
    ensures Cost(present, a + b) == Cost(present, a) + Cost(present1, b)
    ensures present1 + SlotsOf(b) == present + SlotsOf(a + b)
    ensures Strands(present, a + b, n) <==> Strands(present1, b, n1)
  {
    CostConcat(present, a, b);
    SlotsOfConcat(a, b);
    StrandsConcat(present, a, b, n);
  }

  lemma {:induction false} SpendsThen(pd: FrameNo, m: Machine, m1: Machine, r: Machine, e: Ending, a: seq<FrameNo>,
                                      b: seq<FrameNo>)
    requires Spends(pd, m, m1, Done, a) && Spends(pd, m1, r, e, b)
    ensures Spends(pd, m, r, e, a + b)
  {
    SpendsIs(pd, m, m1, Done, a);
    SpendsIs(pd, m1, r, e, b);
    BudgetAfter(PresentSlots(m, pd), PresentSlots(m1, pd), a, b, Free(m), Free(m1));
    SpendsIs(pd, m, r, e, a + b);
  }

  lemma {:induction false} SpendsAll(pd: FrameNo, m: Machine, r: Machine, e: Ending, a: seq<FrameNo>, b: seq<FrameNo>)
    requires Spends(pd, m, r, e, a) && !e.Done?
    ensures Spends(pd, m, r, e, a + b)
  {
    SpendsIs(pd, m, r, e, a);
    CostConcat(PresentSlots(m, pd), a, b);
    StrandsConcat(PresentSlots(m, pd), a, b, Free(m));
    SpendsIs(pd, m, r, e, a + b);
  }

  /** With no frame free, nothing can be allocated. */
  lemma {:induction false} SpendsNone(pd: FrameNo, m: Machine, pages: seq<FrameNo>)
    requires Free(m) == 0 && pages != []
    ensures Spends(pd, m, m, MissingFrame, pages)
  {
    SpendsIs(pd, m, m, MissingFrame, pages);
  }

  /** The frames in use and the directory are the same. */
  ghost predicate SameBudget(pd: FrameNo, m: Machine, r: Machine)
  {
    r.used == m.used && r.total == m.total && r.mem[pd] == m.mem[pd]
  }

  lemma {:induction false} SpendsSame(pd: FrameNo, m: Machine, r: Machine, r': Machine, e: Ending, pages: seq<FrameNo>)
    requires Spends(pd, m, r, e, pages) && SameBudget(pd, r, r')
    ensures Spends(pd, m, r', e, pages)
  {
    SpendsIs(pd, m, r, e, pages);
    SpendsIs(pd, m, r', e, pages);
  }

  /** How a single allocation ends that gets a frame. */
  function EndsMapped(mapped: bool): Ending { if mapped then Done else MissingTable }

  // ---------------------------------------------------------------- one page

  /** A mapping in a slot that is not shared adds the slot, and takes a frame if it was absent. */
  lemma MapCounts(s: System, own: map<nat, Role>, pd: FrameNo, p: FrameNo, f: FrameNo)
    requires TablesInv(s, own) && pd in s.dirs && !Shared(s.m, pd, Slot(p))
    ensures var (r, ok) := MapIn(s.m, pd, p, f, USER_WRITABLE);
      var absent := Slot(p) !in PresentSlots(s.m, pd);
      && (ok <==> !absent || Free(s.m) > 0)
      && (ok ==>
        PresentSlots(r, pd) == PresentSlots(s.m, pd) + {Slot(p)} && Free(r) == Free(s.m) - if absent then 1 else 0)
  {
    var i := Slot(p);
    KernelIsNoSpace(s, own);
    assert DirOk(s.m, own, pd);
    AllocFresh(s.m);
    AllocCounts(s.m);
    if s.m.mem[pd][i].flags.present { TableIsLabelled(s, own, pd, i); }
  }

  /** A page allocation maps its page exactly when the frames suffice. */
  lemma AllocSpends(o: Origin, m: Machine, own: map<nat, Role>, pages: set<FrameNo>, p: FrameNo)
    requires Loading(o, m, own, pages) && !Shared(m, o.pd, Slot(p)) && !Exhausted(m)
    ensures Free(m) > 0
    ensures Spends(o.pd, m, AllocIn(m, o.pd, p, USER_WRITABLE).0, EndsMapped(GetsMapped(m, o.pd, p)), [p])
  {
    AllocFresh(m);
    AllocCounts(m);
    var own' := TakeForPage(o, m, own, pages, p);
    MapCounts(System(Alloc(m).0, o.s.dirs), own', o.pd, p, Alloc(m).1);
    CostOfOne(PresentSlots(m, o.pd), p);
    StrandsOne(PresentSlots(m, o.pd), p, Free(m));
    SpendsIs(o.pd, m, AllocIn(m, o.pd, p, USER_WRITABLE).0, EndsMapped(GetsMapped(m, o.pd, p)), [p]);
  }
}

/**
 Counting frames: how many a clone needs, which one each allocation gets, and hence, from the
 machine before the call alone, whether a clone succeeds and what a failed one releases.
 */
module VmmCount {
  import opened Folding
  import opened Pmm
  import opened VmmModel
  import opened VmmInvariant
  import opened VmmClone

  // ---------------------------------------------------------------- free frames

  ghost predicate IsFree(m: Machine, f: nat) { f < m.total && f !in m.used }

  /** The number of free frames, which is the kernel's free_count. */
  ghost function Free(m: Machine): nat { |FreeSet(m.used, m.total)| }

  lemma AllocCounts(m: Machine)
    requires Sane(m)
    ensures Alloc(m).1 == 0 <==> Free(m) == 0
    ensures Alloc(m).1 != 0 ==> Free(Alloc(m).0) == Free(m) - 1
  {
    AllocFresh(m);
    var (r, f) := Alloc(m);
    if f != 0 {
      assert f in FreeSet(m.used, m.total);
      assert FreeSet(r.used, r.total) == FreeSet(m.used, m.total) - {f as nat};
    } else {
      assert FreeSet(m.used, m.total) == {};
    }
  }

  /** The k-th lowest free frame from i on, counting from 0; the total when there is none. */
  function NthFrom(used: set<nat>, total: nat, i: nat, k: nat): (f: nat)
    requires i <= total
    ensures i <= f <= total
    decreases total - i
  {
    if i == total then total
    else if i in used then NthFrom(used, total, i + 1, k)
    else if k == 0 then i
    else NthFrom(used, total, i + 1, k - 1)
  }

  function NthFree(m: Machine, k: nat): nat { NthFrom(m.used, m.total, 0, k) }

  ghost function FreeBetween(used: set<nat>, i: nat, f: nat): set<nat> { set g | i <= g < f && g !in used }

  /** A free frame with k free frames below it is the k-th. */
  lemma {:induction false} NthIsUnique(used: set<nat>, total: nat, i: nat, f: nat, k: nat)
    requires i <= f < total && f !in used && |FreeBetween(used, i, f)| == k
    ensures NthFrom(used, total, i, k) == f
    decreases f - i
  {
    if i == f {
      assert FreeBetween(used, i, f) == {};
    } else if i in used {
      assert FreeBetween(used, i, f) == FreeBetween(used, i + 1, f);
      NthIsUnique(used, total, i + 1, f, k);
    } else {
      assert i in FreeBetween(used, i, f);
      assert FreeBetween(used, i + 1, f) == FreeBetween(used, i, f) - {i};
      NthIsUnique(used, total, i + 1, f, k - 1);
    }
  }

  /** All frames taken between m and r lie below g. */
  ghost predicate TakenBelow(m: Machine, r: Machine, g: nat) { forall f :: f in r.used && f !in m.used ==> f < g }

  /** From m to r the lowest free frames were taken, and only frames taken were written. */
  ghost predicate TookLowest(m: Machine, r: Machine)
  {
    && Sane(m) && Sane(r) && m.used <= r.used && r.total == m.total
    && (forall g: nat {:trigger TakenBelow(m, r, g)} :: IsFree(r, g) ==> TakenBelow(m, r, g))
    && Untouched(m, r)
  }

  lemma TakenCount(m: Machine, r: Machine)
    requires TookLowest(m, r)
    ensures |r.used - m.used| + Free(r) == Free(m)
  {
    var taken := r.used - m.used;
    assert FreeSet(m.used, m.total) == FreeSet(r.used, r.total) + taken;
    assert FreeSet(r.used, r.total) !! taken;
  }

  /** The next frame is the n-th lowest that was free at the start, n being the number taken since. */
  lemma NextIsNth(m: Machine, r: Machine)
    requires TookLowest(m, r) && Alloc(r).1 != 0
    ensures Free(r) <= Free(m) && Alloc(r).1 == NthFree(m, Free(m) - Free(r)) && Alloc(r).1 !in r.used
  {
    AllocFresh(r);
    TakenCount(m, r);
    var f: nat := Alloc(r).1;
    var taken := r.used - m.used;
    assert TakenBelow(m, r, f);
    assert FreeBetween(m.used, 0, f) == taken by {
      assert forall g :: 0 <= g < f ==> g in r.used;
    }
    NthIsUnique(m.used, m.total, 0, f, |taken|);
  }

  lemma AllocKeepsAccount(m: Machine, r: Machine)
    requires TookLowest(m, r) && Alloc(r).1 != 0
    ensures TookLowest(m, Alloc(r).0)
  {
    AllocFresh(r);
    var r1 := Alloc(r).0;
    forall g: nat | IsFree(r1, g) ensures TakenBelow(m, r1, g) { assert TakenBelow(m, r, g); }
  }

  /** Writing a frame in use keeps the account. */
  lemma WriteKeepsAccount(m: Machine, r: Machine, f: FrameNo, page: Frame)
    requires TookLowest(m, r) && f in r.used
    ensures TookLowest(m, WriteFrame(r, f, page))
  {
    forall g: nat | IsFree(r, g) ensures TakenBelow(m, WriteFrame(r, f, page), g) { assert TakenBelow(m, r, g); }
  }

  lemma TookNothing(m: Machine)
    requires Sane(m)
    ensures TookLowest(m, m)
  {
  }

  // ---------------------------------------------------------------- one table

  /** The number of present entries of a table from entry j on. */
  function Leaves(table: Frame, j: nat): nat
    requires j <= ENTRIES
    decreases ENTRIES - j
  {
    if j == ENTRIES then 0 else (if table[j].flags.present then 1 else 0) + Leaves(table, j + 1)
  }

  /** The entry at which a copy with b frames stops: the first present one with b present ones before it. */
  function StopsAt(table: Frame, j: nat, b: nat): (n: nat)
    requires j <= ENTRIES
    ensures j <= n <= ENTRIES
    decreases ENTRIES - j
  {
    if j == ENTRIES then ENTRIES
    else if !table[j].flags.present then StopsAt(table, j + 1, b)
    else if b == 0 then j
    else StopsAt(table, j + 1, b - 1)
  }

  lemma {:induction false} StopsEarlyIff(table: Frame, j: nat, b: nat)
    requires j <= ENTRIES
    ensures StopsAt(table, j, b) == ENTRIES <==> b >= Leaves(table, j)
    decreases ENTRIES - j
  {
    if j < ENTRIES {
      if table[j].flags.present && b > 0 { StopsEarlyIff(table, j + 1, b - 1); }
      if !table[j].flags.present { StopsEarlyIff(table, j + 1, b); }
    }
  }

  function Minus(a: nat, b: nat): nat { if a < b then 0 else a - b }

  /** Copying one entry takes the lowest free frame. */
  lemma CopyEntryCounts(m0: Machine, m: Machine, src: FrameNo, dst: FrameNo, j: nat)
    requires SourceTable(m, src, dst) && TookLowest(m0, m) && j < ENTRIES && m.mem[src][j].flags.present
    requires Alloc(m).1 != 0
    ensures var r := CopyEntry(m, src, dst, j);
      TookLowest(m0, r) && Free(r) == Free(m) - 1 && r.mem[src] == m.mem[src] && SourceTable(r, src, dst)
  {
    AllocFresh(m);
    AllocCounts(m);
    AllocKeepsAccount(m0, m);
    CopyEntryStep(m, src, dst, j);
    var (m1, f) := Alloc(m);
    WriteKeepsAccount(m0, m1, f, m1.mem[m1.mem[src][j].frame]);
    var m2 := WriteFrame(m1, f, m1.mem[m1.mem[src][j].frame]);
    WriteKeepsAccount(m0, m2, dst, m2.mem[dst][j := Word(f, m2.mem[src][j].flags)]);
  }

  /** The copy loop stops where the frames do. */
  lemma {:induction false} CloneTableCounts(m0: Machine, m: Machine, src: FrameNo, dst: FrameNo, j: nat)
    requires SourceTable(m, src, dst) && TookLowest(m0, m) && j <= ENTRIES
    ensures var (r, n) := CloneTable(m, src, dst, j);
      && n == StopsAt(m.mem[src], j, Free(m))
      && Free(r) == Minus(Free(m), Leaves(m.mem[src], j))
      && TookLowest(m0, r)
    decreases ENTRIES - j
  {
    if j < ENTRIES {
      if !m.mem[src][j].flags.present {
        WriteKeepsAccount(m0, m, dst, m.mem[dst][j := ZERO]);
        CloneTableCounts(m0, Write(m, dst, j, ZERO), src, dst, j + 1);
      } else {
        AllocCounts(m);
        AllocFresh(m);
        if Alloc(m).1 != 0 {
          CopyEntryCounts(m0, m, src, dst, j);
          CloneTableCounts(m0, CopyEntry(m, src, dst, j), src, dst, j + 1);
        }
      }
    }
  }

  // ---------------------------------------------------------------- the directory

  /** Frames that cloning slot h takes: its table and a page for each present entry. */
  function SlotCost(m: Machine, pd: FrameNo, h: nat): nat
    requires h < ENTRIES
  {
    if Private(m, pd, h) then 1 + Leaves(m.mem[m.mem[pd][h].frame], 0) else 0
  }

  /** What each slot costs. */
  function Costs(m: Machine, pd: FrameNo): (c: seq<nat>)
    ensures |c| == ENTRIES
  {
    seq(1024, h requires 0 <= h < 1024 => SlotCost(m, pd, h))
  }

  function Sum(costs: seq<nat>): nat { if costs == [] then 0 else costs[0] + Sum(costs[1..]) }

  /** Paying costs in order from item i on with b in hand: the first item that cannot be paid, and what is left then. */
  datatype Stop = Stop(item: nat, left: nat)

  function StopOf(costs: seq<nat>, i: nat, b: nat): (s: Stop)
    requires i <= |costs|
    ensures i <= s.item <= |costs| && s.left <= b
    decreases |costs| - i
  {
    if i == |costs| || b < costs[i] then Stop(i, b) else StopOf(costs, i + 1, b - costs[i])
  }

  lemma {:induction false} PaysAllIff(costs: seq<nat>, i: nat, b: nat)
    requires i <= |costs|
    ensures StopOf(costs, i, b).item == |costs| <==> b >= Sum(costs[i..])
    decreases |costs| - i
  {
    if i < |costs| {
      assert costs[i..][0] == costs[i] && costs[i..][1..] == costs[i + 1..];
      if b >= costs[i] { PaysAllIff(costs, i + 1, b - costs[i]); }
    }
  }

  /**
   How a clone ends that stops at slot s.item with s.left of the given number of free frames left: with none left
   it lacks the table; otherwise the table got the next lowest frame, and its pages the rest.
   */
  function HaltAt(m: Machine, pd: FrameNo, free: nat, s: Stop): (h: Halt)
    requires s.item <= ENTRIES && s.left <= free
    ensures h.InTable? ==> h.n <= ENTRIES
  {
    if s.item == ENTRIES then Complete
    else if s.left == 0 || NthFree(m, free - s.left) >= 0x10_0000 then NoFrame
    else InTable(NthFree(m, free - s.left), StopsAt(m.mem[m.mem[pd][s.item].frame], 0, s.left - 1))
  }

  /** A clone in progress that has taken the lowest free frames. */
  ghost predicate Counted(m: Machine, r: Machine, pd: FrameNo, dst: FrameNo, i: nat, own: map<nat, Role>,
                          own1: map<nat, Role>)
  {
    && SourceSpace(m, pd) && Progress(m, r, pd, dst, i) && Labels(m, r, own, own1, dst) && own.Keys <= m.used
    && TookLowest(m, r)
  }

  lemma SameSource(m: Machine, r: Machine, pd: FrameNo, dst: FrameNo, i: nat)
    requires SourceSpace(m, pd) && Progress(m, r, pd, dst, i)
    ensures r.mem[pd] == m.mem[pd] && r.mem[m.kernel] == m.mem[m.kernel] && r.kernel == m.kernel && dst in r.used
    ensures forall h :: 0 <= h < ENTRIES ==> (Private(r, pd, h) <==> Private(m, pd, h))
  {
  }

  /** The allocation and the copy attempted at private slot i: table frame t, entry n reached. */
  ghost predicate Tried(r: Machine, pd: FrameNo, i: nat, r1: Machine, t: FrameNo, r2: Machine, n: nat)
    requires i < ENTRIES
  {
    forall z: int {:trigger Unfold(z)} :: Unfold(z) ==>
      Alloc(r) == (r1, t) && t != 0 && CloneTable(r1, r1.mem[pd][i].frame, t, 0) == (r2, n)
  }

  lemma {:induction false} TriedSo(r: Machine, pd: FrameNo, i: nat, r1: Machine, t: FrameNo, r2: Machine, n: nat)
    requires i < ENTRIES && Alloc(r) == (r1, t) && t != 0 && CloneTable(r1, r1.mem[pd][i].frame, t, 0) == (r2, n)
    ensures Tried(r, pd, i, r1, t, r2, n)
  {
  }

  /** The frame taken for the next table is the next of the frames that were free at the start. */
  lemma SlotStarts(m: Machine, r: Machine) returns (r1: Machine, t: FrameNo)
    requires TookLowest(m, r) && Free(r) > 0
    ensures Alloc(r) == (r1, t) && t != 0 && TookLowest(m, r1)
    ensures Free(r) <= Free(m) && t == NthFree(m, Free(m) - Free(r)) && Free(r1) == Free(r) - 1
  {
    AllocFresh(r);
    AllocCounts(r);
    NextIsNth(m, r);
    AllocKeepsAccount(m, r);
    r1, t := Alloc(r).0, Alloc(r).1;
  }

  /** The attempt at one private slot: how far it gets and what is left. */
  lemma SlotCounts(m: Machine, r: Machine, pd: FrameNo, dst: FrameNo, i: nat, own: map<nat, Role>, own1: map<nat, Role>)
    returns (r1: Machine, t: FrameNo, r2: Machine, n: nat)
    requires Counted(m, r, pd, dst, i, own, own1) && i < ENTRIES && Private(r, pd, i) && Free(r) > 0
    ensures Tried(r, pd, i, r1, t, r2, n)
    ensures Free(r) <= Free(m) && t == NthFree(m, Free(m) - Free(r))
    ensures n == StopsAt(m.mem[m.mem[pd][i].frame], 0, Free(r) - 1)
    ensures Free(r2) == Minus(Free(r) - 1, Leaves(m.mem[m.mem[pd][i].frame], 0))
    ensures TookLowest(m, r2) && dst in r2.used
  {
    SameSource(m, r, pd, dst, i);
    r1, t := SlotStarts(m, r);
    TableIsSource(m, r, pd, dst, i, t);
    CloneTableCounts(m, r1, m.mem[pd][i].frame, t, 0);
    r2, n := CloneTable(r1, r1.mem[pd][i].frame, t, 0).0, CloneTable(r1, r1.mem[pd][i].frame, t, 0).1;
    assert dst in r2.used by { CloneTableKeepsUsed(r1, r1.mem[pd][i].frame, t, 0); }
    TriedSo(r, pd, i, r1, t, r2, n);
  }

  lemma {:induction false} CloneTableKeepsUsed(m: Machine, src: FrameNo, dst: FrameNo, j: nat)
    requires j <= ENTRIES
    ensures m.used <= CloneTable(m, src, dst, j).0.used
    decreases ENTRIES - j
  {
    if j < ENTRIES {
      if !m.mem[src][j].flags.present {
        CloneTableKeepsUsed(Write(m, dst, j, ZERO), src, dst, j + 1);
      } else if Alloc(m).1 != 0 {
        CloneTableKeepsUsed(CopyEntry(m, src, dst, j), src, dst, j + 1);
      }
    }
  }

  lemma PrivateCost(m: Machine, r: Machine, pd: FrameNo, dst: FrameNo, i: nat)
    requires SourceSpace(m, pd) && Progress(m, r, pd, dst, i) && i < ENTRIES
    ensures SlotCost(m, pd, i) == if Private(r, pd, i) then 1 + Leaves(m.mem[m.mem[pd][i].frame], 0) else 0
  {
    SameSource(m, r, pd, dst, i);
  }

  /** The machine after a private slot was copied. */
  function FilledSlot(r2: Machine, pd: FrameNo, dst: FrameNo, i: nat, t: FrameNo): Machine
    requires i < ENTRIES
  {
    Write(r2, dst, i, Word(t, r2.mem[pd][i].flags))
  }

  lemma FillKeepsAccount(m: Machine, r2: Machine, pd: FrameNo, dst: FrameNo, i: nat, t: FrameNo)
    requires TookLowest(m, r2) && dst in r2.used && i < ENTRIES
    ensures TookLowest(m, FilledSlot(r2, pd, dst, i, t)) && Free(FilledSlot(r2, pd, dst, i, t)) == Free(r2)
  {
    WriteKeepsAccount(m, r2, dst, r2.mem[dst][i := Word(t, r2.mem[pd][i].flags)]);
  }

  /** The clone is in progress at slot i and has taken the lowest free frames: the property, as a value. */
  type Invariant = (Machine, nat, map<nat, Role>) -> bool

  ghost predicate MeansHere(ok: bool, m: Machine, r: Machine, pd: FrameNo, dst: FrameNo, i: nat, own1: map<nat, Role>)
  {
    ok <==> Counted(m, r, pd, dst, i, map[], own1)
  }

  ghost predicate Means(inv: Invariant, m: Machine, pd: FrameNo, dst: FrameNo)
  {
    forall r: Machine, i: nat, own1: map<nat, Role> {:trigger MeansHere(inv(r, i, own1), m, r, pd, dst, i, own1)} ::
      MeansHere(inv(r, i, own1), m, r, pd, dst, i, own1)
  }

  lemma SkipStep(inv: Invariant, m: Machine, r: Machine, pd: FrameNo, dst: FrameNo, i: nat, own1: map<nat, Role>)
    requires Means(inv, m, pd, dst) && inv(r, i, own1) && i < ENTRIES && !Private(r, pd, i)
    ensures inv(r, i + 1, own1) && SlotCost(m, pd, i) == 0
  {
    assert MeansHere(inv(r, i, own1), m, r, pd, dst, i, own1);
    PrivateCost(m, r, pd, dst, i);
    SkipProgress(m, r, pd, dst, i);
    assert MeansHere(inv(r, i + 1, own1), m, r, pd, dst, i + 1, own1);
  }

  lemma CostStep(inv: Invariant, m: Machine, r: Machine, pd: FrameNo, dst: FrameNo, i: nat, own1: map<nat, Role>)
    requires Means(inv, m, pd, dst) && inv(r, i, own1) && i < ENTRIES && Private(r, pd, i)
    ensures SlotCost(m, pd, i) == 1 + Leaves(m.mem[m.mem[pd][i].frame], 0) && Sane(r)
  {
    assert MeansHere(inv(r, i, own1), m, r, pd, dst, i, own1);
    PrivateCost(m, r, pd, dst, i);
  }

  /** How far the copy gets, and what is left. */
  ghost predicate Yields(m: Machine, r: Machine, pd: FrameNo, i: nat, t: FrameNo, r2: Machine, n: nat)
    requires i < ENTRIES
  {
    && Free(r) <= Free(m) && t == NthFree(m, Free(m) - Free(r))
    && n <= ENTRIES && (n < ENTRIES ==> Free(r) > 0 && n == StopsAt(m.mem[m.mem[pd][i].frame], 0, Free(r) - 1))
    && (n == ENTRIES <==> Free(r) >= SlotCost(m, pd, i))
    && Free(r2) == Minus(Free(r), SlotCost(m, pd, i)) && TookLowest(m, r2)
  }

  lemma YieldsSo(m: Machine, r: Machine, pd: FrameNo, i: nat, t: FrameNo, r2: Machine, n: nat)
    requires i < ENTRIES && 0 < Free(r) <= Free(m) && t == NthFree(m, Free(m) - Free(r)) && TookLowest(m, r2)
    requires SlotCost(m, pd, i) == 1 + Leaves(m.mem[m.mem[pd][i].frame], 0)
    requires n == StopsAt(m.mem[m.mem[pd][i].frame], 0, Free(r) - 1)
    requires Free(r2) == Minus(Free(r) - 1, Leaves(m.mem[m.mem[pd][i].frame], 0))
    ensures Yields(m, r, pd, i, t, r2, n)
  {
    StopsEarlyIff(m.mem[m.mem[pd][i].frame], 0, Free(r) - 1);
  }

  lemma CountsYield(m: Machine, r: Machine, pd: FrameNo, dst: FrameNo, i: nat, own1: map<nat, Role>)
    returns (r1: Machine, t: FrameNo, r2: Machine, n: nat)
    requires Counted(m, r, pd, dst, i, map[], own1) && i < ENTRIES && Private(r, pd, i) && Free(r) > 0
    ensures Tried(r, pd, i, r1, t, r2, n) && Yields(m, r, pd, i, t, r2, n) && dst in r2.used
  {
    r1, t, r2, n := SlotCounts(m, r, pd, dst, i, map[], own1);
    PrivateCost(m, r, pd, dst, i);
    YieldsSo(m, r, pd, i, t, r2, n);
  }

  /** The attempt at a private slot. */
  lemma TryStep(inv: Invariant, m: Machine, r: Machine, pd: FrameNo, dst: FrameNo, i: nat, own1: map<nat, Role>)
    returns (r1: Machine, t: FrameNo, r2: Machine, n: nat)
    requires Means(inv, m, pd, dst) && inv(r, i, own1) && i < ENTRIES && Private(r, pd, i) && Free(r) > 0
    ensures Tried(r, pd, i, r1, t, r2, n) && Yields(m, r, pd, i, t, r2, n) && dst in r2.used
  {
    assert MeansHere(inv(r, i, own1), m, r, pd, dst, i, own1);
    r1, t, r2, n := CountsYield(m, r, pd, dst, i, own1);
  }

  lemma FillStep(inv: Invariant, m: Machine, r: Machine, pd: FrameNo, dst: FrameNo, i: nat, own1: map<nat, Role>,
                 r1: Machine, t: FrameNo, r2: Machine)
    returns (own2: map<nat, Role>)
    requires Means(inv, m, pd, dst) && inv(r, i, own1) && i < ENTRIES && Private(r, pd, i)
    requires Tried(r, pd, i, r1, t, r2, ENTRIES) && TookLowest(m, r2) && dst in r2.used
    ensures inv(FilledSlot(r2, pd, dst, i, t), i + 1, own2)
  {
    assert Unfold(0);
    assert MeansHere(inv(r, i, own1), m, r, pd, dst, i, own1);
    SameSource(m, r, pd, dst, i);
    own2 := FillProgress(m, r, pd, dst, i, map[], own1);
    FillKeepsAccount(m, r2, pd, dst, i, t);
    assert MeansHere(inv(FilledSlot(r2, pd, dst, i, t), i + 1, own2), m, FilledSlot(r2, pd, dst, i, t), pd, dst,
                     i + 1, own2);
  }

  // ---------------------------------------------------------------- how the loop ends

  ghost predicate HaltIs(h: Halt, m: Machine, pd: FrameNo, dst: FrameNo, i: nat)
  {
    i <= ENTRIES ==> HaltOf(m, pd, dst, i) == h
  }

  /** The function gives how the loop ends from any machine and slot. */
  ghost predicate Ends(rest: (Machine, nat) -> Halt, pd: FrameNo, dst: FrameNo)
  {
    forall q: Machine, j: nat {:trigger HaltIs(rest(q, j), q, pd, dst, j)} :: HaltIs(rest(q, j), q, pd, dst, j)
  }

  lemma SkipTurn(rest: (Machine, nat) -> Halt, r: Machine, pd: FrameNo, dst: FrameNo, i: nat)
    requires Ends(rest, pd, dst) && i < ENTRIES && !Private(r, pd, i)
    ensures rest(r, i) == rest(r, i + 1)
  {
    assert HaltIs(rest(r, i), r, pd, dst, i) && HaltIs(rest(r, i + 1), r, pd, dst, i + 1);
  }

  lemma NoFrameTurn(rest: (Machine, nat) -> Halt, r: Machine, pd: FrameNo, dst: FrameNo, i: nat)
    requires Ends(rest, pd, dst) && i < ENTRIES && Private(r, pd, i) && Alloc(r).1 == 0
    ensures rest(r, i) == NoFrame
  {
    assert HaltIs(rest(r, i), r, pd, dst, i);
  }

  lemma TableTurn(rest: (Machine, nat) -> Halt, r: Machine, pd: FrameNo, dst: FrameNo, i: nat, r1: Machine,
                  t: FrameNo, r2: Machine, n: nat)
    requires Ends(rest, pd, dst) && i < ENTRIES && Private(r, pd, i) && Tried(r, pd, i, r1, t, r2, n)
    ensures rest(r, i) == if n < ENTRIES then InTable(t, n) else rest(FilledSlot(r2, pd, dst, i, t), i + 1)
  {
    assert Unfold(0);
    assert HaltIs(rest(r, i), r, pd, dst, i);
    assert HaltIs(rest(FilledSlot(r2, pd, dst, i, t), i + 1), FilledSlot(r2, pd, dst, i, t), pd, dst, i + 1);
  }

  lemma LastTurn(rest: (Machine, nat) -> Halt, pd: FrameNo, dst: FrameNo, r: Machine)
    requires Ends(rest, pd, dst)
    ensures rest(r, ENTRIES) == Complete
  {
    assert HaltIs(rest(r, ENTRIES), r, pd, dst, ENTRIES);
  }

  /** A turn at a private slot with a frame left for its table. */
  lemma TableStep(inv: Invariant, rest: (Machine, nat) -> Halt, m: Machine, r: Machine, pd: FrameNo, dst: FrameNo,
                  i: nat, own1: map<nat, Role>)
    returns (r': Machine, own2: map<nat, Role>)
    requires Means(inv, m, pd, dst) && Ends(rest, pd, dst) && inv(r, i, own1) && i < ENTRIES && Private(r, pd, i)
    requires 0 < Free(r) <= Free(m)
    ensures Free(r) >= SlotCost(m, pd, i) ==>
      inv(r', i + 1, own2) && Free(r') == Free(r) - SlotCost(m, pd, i) && rest(r, i) == rest(r', i + 1)
    ensures Free(r) < SlotCost(m, pd, i) ==> rest(r, i) == HaltAt(m, pd, Free(m), Stop(i, Free(r)))
  {
    var r1, t, r2, n := TryStep(inv, m, r, pd, dst, i, own1);
    TableTurn(rest, r, pd, dst, i, r1, t, r2, n);
    r', own2 := r, own1;
    if n == ENTRIES {
      own2 := FillStep(inv, m, r, pd, dst, i, own1, r1, t, r2);
      FillKeepsAccount(m, r2, pd, dst, i, t);
      r' := FilledSlot(r2, pd, dst, i, t);
    }
  }

  /** One turn of the directory loop: on with what is left, or the end. */
  lemma SlotTurn(inv: Invariant, rest: (Machine, nat) -> Halt, m: Machine, r: Machine, pd: FrameNo, dst: FrameNo,
                 i: nat, own1: map<nat, Role>)
    returns (r': Machine, own2: map<nat, Role>)
    requires Means(inv, m, pd, dst) && Ends(rest, pd, dst) && inv(r, i, own1) && i < ENTRIES && Free(r) <= Free(m)
    ensures Free(r) >= SlotCost(m, pd, i) ==>
      inv(r', i + 1, own2) && Free(r') == Free(r) - SlotCost(m, pd, i) && rest(r, i) == rest(r', i + 1)
    ensures Free(r) < SlotCost(m, pd, i) ==> rest(r, i) == HaltAt(m, pd, Free(m), Stop(i, Free(r)))
  {
    r', own2 := r, own1;
    if !Private(r, pd, i) {
      SkipStep(inv, m, r, pd, dst, i, own1);
      SkipTurn(rest, r, pd, dst, i);
    } else if Free(r) == 0 {
      CostStep(inv, m, r, pd, dst, i, own1);
      AllocCounts(r);
      NoFrameTurn(rest, r, pd, dst, i);
    } else {
      r', own2 := TableStep(inv, rest, m, r, pd, dst, i, own1);
    }
  }

  /** The directory loop ends as the count of free frames says. */
  lemma {:induction false} EndsAsCounted(inv: Invariant, rest: (Machine, nat) -> Halt, m: Machine, r: Machine,
                                         pd: FrameNo, dst: FrameNo, i: nat, costs: seq<nat>, own1: map<nat, Role>)
    returns (s: Stop)
    requires Means(inv, m, pd, dst) && Ends(rest, pd, dst) && inv(r, i, own1) && i <= ENTRIES && Free(r) <= Free(m)
    requires |costs| == ENTRIES && forall h :: 0 <= h < ENTRIES ==> costs[h] == SlotCost(m, pd, h)
    ensures s == StopOf(costs, i, Free(r)) && rest(r, i) == HaltAt(m, pd, Free(m), s)
    decreases ENTRIES - i
  {
    s := Stop(i, Free(r));
    if i == ENTRIES {
      LastTurn(rest, pd, dst, r);
    } else {
      var r', own2 := SlotTurn(inv, rest, m, r, pd, dst, i, own1);
      if Free(r) >= costs[i] { s := EndsAsCounted(inv, rest, m, r', pd, dst, i + 1, costs, own2); }
    }
  }

  lemma {:induction false} CloneDirCounts(m: Machine, r: Machine, pd: FrameNo, dst: FrameNo, own1: map<nat, Role>)
    requires Counted(m, r, pd, dst, 0, map[], own1) && Free(r) <= Free(m)
    ensures HaltOf(r, pd, dst, 0) == HaltAt(m, pd, Free(m), StopOf(Costs(m, pd), 0, Free(r)))
  {
    var inv: Invariant := (q: Machine, j: nat, own: map<nat, Role>) => Counted(m, q, pd, dst, j, map[], own);
    var rest := (q: Machine, j: nat) => if j <= ENTRIES then HaltOf(q, pd, dst, j) else Complete;
    assert MeansHere(inv(r, 0, own1), m, r, pd, dst, 0, own1);
    var s := EndsAsCounted(inv, rest, m, r, pd, dst, 0, Costs(m, pd), own1);
  }
}

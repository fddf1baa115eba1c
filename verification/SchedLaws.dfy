/**
 What each step of the scheduler does to every task, field by field: who wakes at a tick, who is
 dispatched, where a new task goes, what exit and sleep leave behind, and what wait takes away.
 */
module SchedLaws {
  import opened SchedModel
  import opened SchedRuns

  // ---------------------------------------------------------------- tick

  /** A tick counts up modulo 2^32 and changes the status of sleepers that are due, and nothing else of any task. */
  lemma {:induction false} TickWakesOnlyDue(s: State, i: nat)
    requires i < |s.ring|
    ensures var s' := Step(s, DoTick);
      && s'.tick == (s.tick + 1) % 0x1_0000_0000 && s'.nextPid == s.nextPid && |s'.ring| == |s.ring|
      && var t, t' := s.ring[i], s'.ring[i];
      && t'.pid == t.pid && t'.parent == t.parent && t'.code == t.code && t'.wakeup == t.wakeup
      && t'.status == if t.status == Sleeping && t.wakeup <= s'.tick then Running else t.status
  {
  }

  /** A running task is the same running task after every step but its own exit or sleep. */
  lemma {:induction false} RunningStays(s: State, op: Op, t: Task)
    requires Inv(s) && Allowed(s, op) && HasTask(s, t) && t.status == Running
    requires t.pid == s.current ==> !op.DoExit? && !op.DoSleep?
    ensures HasTask(Step(s, op), t)
  {
    if t.pid != s.current {
      OtherTaskStep(s, op, t);
    } else {
      match op {
        case DoTick => SameRingIndex(s.ring, Ticked(s).ring, t.pid);
        case DoCreate(ok) => CreatedKeepsTask(s, 0, t);
        case DoFork(ok) => CurrentBelowNext(s); CreatedKeepsTask(s, s.current, t);
        case DoWait => OtherTaskWait(s, t);
      }
    }
  }

  // ---------------------------------------------------------------- dispatch

  /** The task d places after position c, around the ring. */
  function PlacesAfter(ring: seq<Task>, c: nat, d: nat): Task
    requires ring != []
  {
    ring[(c + d) % |ring|]
  }

  /** The first running task after position c, once round, has this pid. */
  ghost predicate RunsNext(ring: seq<Task>, c: nat, pid: nat)
    requires ring != []
  {
    exists d :: 1 <= d <= |ring| && PlacesAfter(ring, c, d).status == Running && PlacesAfter(ring, c, d).pid == pid
      && forall e :: 1 <= e < d ==> PlacesAfter(ring, c, e).status != Running
  }

  ghost predicate SomeRuns(ring: seq<Task>) { exists t :: t in ring && t.status == Running }

  lemma PlaceIsAt(ring: seq<Task>, c: nat, d: nat)
    requires c < |ring| && d <= |ring|
    ensures PlacesAfter(ring, c, d) == At(ring, c, d)
  {
    if c + d >= |ring| { WrapsOnce(c + d, |ring|); }
  }

  lemma WrapsOnce(i: nat, n: nat)
    requires 0 < n <= i <= 2 * n - 1
    ensures i % n == i - n
  {
  }

  /** Where the search for the next task starts: at the current task, or at task_list when there is none. */
  ghost predicate StartsAt(s: State, c: nat)
  {
    c < |s.ring| && (s.ring[c].pid == s.current || (s.current == 0 && c == 0))
  }

  lemma {:induction false} StartIs(s: State, c: nat)
    requires Inv(s) && StartsAt(s, c)
    ensures Start(s) == c
  {
    forall i | 0 <= i < |s.ring| ensures s.ring[i].pid != 0 { assert TaskOk(s.ring[i], s.nextPid); }
    if s.ring[c].pid == s.current { IndexIsUnique(s.ring, c); }
  }

  /** With a running task on the ring, the next one after the current is dispatched; with none, nothing changes. */
  lemma {:induction false} DispatchRunsNext(s: State, c: nat)
    requires Inv(s) && StartsAt(s, c)
    ensures var r := Dispatch(s);
      && r == s.(current := r.current)
      && (SomeRuns(s.ring) ==> RunsNext(s.ring, c, r.current))
      && (!SomeRuns(s.ring) ==> r == s)
  {
    StartIs(s, c);
    var d := FirstRunning(s.ring, c, 1);
    forall e | 1 <= e <= |s.ring| ensures PlacesAfter(s.ring, c, e) == At(s.ring, c, e) { PlaceIsAt(s.ring, c, e); }
    if d <= |s.ring| {
      assert At(s.ring, c, d) in s.ring && TaskOk(At(s.ring, c, d), s.nextPid);
      assert PlacesAfter(s.ring, c, d).pid == Dispatch(s).current;
    } else {
      NobodyRuns(s.ring, c);
    }
  }

  /** A search once round that finds nothing has seen every task. */
  lemma {:induction false} NobodyRuns(ring: seq<Task>, c: nat)
    requires c < |ring| && FirstRunning(ring, c, 1) > |ring|
    ensures !SomeRuns(ring)
  {
    forall i | 0 <= i < |ring| ensures ring[i].status != Running {
      assert At(ring, c, if i > c then i - c else i + |ring| - c) == ring[i];
    }
  }

  /** An empty ring has nothing to dispatch. */
  lemma {:induction false} NobodyToRun(s: State)
    requires s.ring == []
    ensures Dispatch(s) == s
  {
  }

  /**
   Ticks, exits and sleeps dispatch the first running task after the current one, among the tasks as they leave
   them, and keep the current one when none is running. Other steps keep it.
   */
  lemma {:induction false} StepRunsNext(s: State, op: Op, c: nat)
    requires Inv(s) && Allowed(s, op) && StartsAt(s, c)
    ensures var s' := Step(s, op);
      if op.DoTick? || op.DoExit? || op.DoSleep? then
        s'.ring != [] && if SomeRuns(s'.ring) then RunsNext(s'.ring, c, s'.current) else s'.current == s.current
      else s'.current == s.current
  {
    if op.DoTick? || op.DoExit? || op.DoSleep? {
      StepKeeps(s, op);
      DispatchRunsNext(Before(s, op), c);
    }
  }

  // ---------------------------------------------------------------- the other steps

  /** The ring with t put right behind its first task, all others in their order. */
  ghost predicate PutSecond(ring: seq<Task>, ring': seq<Task>, t: Task)
  {
    && |ring'| == |ring| + 1 && ring'[if ring == [] then 0 else 1] == t
    && forall i :: 0 <= i < |ring| ==> ring[i] == ring'[if i == 0 then 0 else i + 1]
  }

  /** Creation and fork add one running task, with the next pid and its parent, and nothing else. */
  lemma {:induction false} CreateAdds(s: State, ok: bool)
    ensures var s' := Step(s, DoCreate(ok));
      if ok then
        && PutSecond(s.ring, s'.ring, Task(s.nextPid, 0, Running, 0, 0))
        && s' == s.(ring := s'.ring, nextPid := s.nextPid + 1)
      else s' == s
    ensures var s' := Step(s, DoFork(ok));
      if ok then
        && PutSecond(s.ring, s'.ring, Task(s.nextPid, s.current, Running, 0, 0))
        && s' == s.(ring := s'.ring, nextPid := s.nextPid + 1)
      else s' == s
  {
  }

  /** The ring with task i changed, all others as they are. */
  ghost predicate OneChanged(ring: seq<Task>, ring': seq<Task>, i: nat, t: Task)
    requires i < |ring|
  {
    |ring'| == |ring| && ring'[i] == t && forall j :: 0 <= j < |ring| && j != i ==> ring'[j] == ring[j]
  }

  /** Exit leaves a zombie with the code, where the task was on the ring. */
  lemma {:induction false} ExitLeavesZombie(s: State, code: int, i: nat)
    requires Inv(s) && Allowed(s, DoExit(code)) && i < |s.ring| && s.ring[i].pid == s.current
    ensures var s' := Step(s, DoExit(code));
      && OneChanged(s.ring, s'.ring, i, s.ring[i].(status := Zombie, code := code))
      && s'.tick == s.tick && s'.nextPid == s.nextPid
  {
    IndexIsUnique(s.ring, i);
  }

  /** Sleep leaves a sleeper with the deadline, counted from now modulo 2^32. */
  lemma {:induction false} SleepLeavesSleeper(s: State, ticks: Tick, i: nat)
    requires Inv(s) && Allowed(s, DoSleep(ticks)) && i < |s.ring| && s.ring[i].pid == s.current
    ensures var s' := Step(s, DoSleep(ticks));
      && OneChanged(s.ring, s'.ring, i,
                    s.ring[i].(status := Sleeping, wakeup := (s.tick + ticks) % 0x1_0000_0000))
      && s'.tick == s.tick && s'.nextPid == s.nextPid
  {
    IndexIsUnique(s.ring, i);
  }

  /** Task i is a zombie child of the current task. */
  ghost predicate Waitable(s: State, i: nat)
    requires i < |s.ring|
  {
    s.ring[i].status == Zombie && s.ring[i].parent == s.current
  }

  /** Task k is the first zombie child of the current task, from task_list on. */
  ghost predicate FirstWaitable(s: State, k: nat)
  {
    k < |s.ring| && Waitable(s, k) && forall i :: 0 <= i < k ==> !Waitable(s, i)
  }

  /** Wait takes the first zombie child off the ring, leaving all others in their order. */
  lemma {:induction false} WaitTakesFirst(s: State, k: nat)
    requires Inv(s) && Allowed(s, DoWait) && FirstWaitable(s, k)
    ensures var s' := Step(s, DoWait);
      && s' == s.(ring := s'.ring) && |s'.ring| == |s.ring| - 1
      && forall i :: 0 <= i < |s'.ring| ==> s'.ring[i] == s.ring[if i < k then i else i + 1]
  {
    FirstIsFound(s, k);
    RemoveLeaves(s.ring, k);
  }

  lemma {:induction false} RemoveLeaves(ring: seq<Task>, k: nat)
    requires k < |ring|
    ensures |Remove(ring, k)| == |ring| - 1
    ensures forall i :: 0 <= i < |ring| - 1 ==> Remove(ring, k)[i] == ring[if i < k then i else i + 1]
  {
  }

  lemma {:induction false} FirstIsFound(s: State, k: nat)
    requires FirstWaitable(s, k)
    ensures ZombieChild(s.ring, s.current) == k
  {
    var z := ZombieChild(s.ring, s.current);
    assert z < |s.ring| ==> Waitable(s, z);
  }

  /** Without a zombie child, wait changes nothing. */
  lemma {:induction false} WaitWithoutChild(s: State)
    requires Inv(s) && Allowed(s, DoWait) && forall i :: 0 <= i < |s.ring| ==> !Waitable(s, i)
    ensures Step(s, DoWait) == s
  {
    var z := ZombieChild(s.ring, s.current);
    assert z < |s.ring| ==> Waitable(s, z);
  }
}

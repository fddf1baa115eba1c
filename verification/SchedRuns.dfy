/**
 Laws over whole runs of the scheduler: the ring stays sound, round robin has bounded waiting,
 sleepers wake on time, zombies stay dead, and an exit code is delivered once.
 */
module SchedRuns {
  import opened Sizes
  import opened SchedModel

  /** The state after a run; every step must be allowed where it happens. */
  ghost predicate Run(s: State, ops: seq<Op>, r: State)
    decreases |ops|
  {
    if ops == [] then r == s else Allowed(s, ops[0]) && Run(Step(s, ops[0]), ops[1..], r)
  }

  const Boot: State := State([], 0, 0, 1)

  /** In every reachable state pids are distinct and below next_pid, and the current task is on the ring. */
  lemma {:induction false} RunsKeepRing(s: State, ops: seq<Op>, r: State)
    requires Inv(s) && Run(s, ops, r)
    ensures Inv(r)
    decreases |ops|
  {
    if ops != [] {
      StepKeeps(s, ops[0]);
      RunsKeepRing(Step(s, ops[0]), ops[1..], r);
    }
  }

  // ---------------------------------------------------------------- fairness

  ghost predicate OnRing(s: State, pid: nat) { IndexOf(s.ring, pid) < |s.ring| }

  function StatusOf(s: State, pid: nat): Status
    requires IndexOf(s.ring, pid) < |s.ring|
  {
    s.ring[IndexOf(s.ring, pid)].status
  }

  ghost predicate Ready(s: State, pid: nat) { OnRing(s, pid) && StatusOf(s, pid) == Running }

  /** Ring distance from position start to position i, between 1 and n. */
  function Ahead(start: nat, i: nat, n: nat): (d: nat)
    requires start < n && i < n
    ensures 1 <= d <= n && Around(start + d, n) == i
  {
    if i > start then i - start else i + n - start
  }

  /** How many dispatches away a task is: its ring distance from the current task. */
  function Distance(s: State, pid: nat): nat
    requires IndexOf(s.ring, pid) < |s.ring|
  {
    Ahead(Start(s), IndexOf(s.ring, pid), |s.ring|)
  }

  /** A dispatch of another task brings a ready task strictly closer. */
  lemma {:induction false} DispatchBringsCloser(s: State, pid: nat)
    requires Inv(s) && Ready(s, pid) && Pick(s) != pid
    ensures Pick(s) != 0 && OnRing(Dispatch(s), pid) && Distance(Dispatch(s), pid) < Distance(s, pid)
  {
    var n, start, i := |s.ring|, Start(s), IndexOf(s.ring, pid);
    var d, a := FirstRunning(s.ring, start, 1), Ahead(start, i, n);
    FoundInTime(s.ring, start, i);
    assert TaskOk(At(s.ring, start, d), s.nextPid);
    PickIsListed(s);
    AheadShrinks(start, d, i, n);
  }

  /** The scan stops no later than at a running task. */
  lemma {:induction false} FoundInTime(ring: seq<Task>, start: nat, i: nat)
    requires start < |ring| && i < |ring| && ring[i].status == Running
    ensures FirstRunning(ring, start, 1) <= Ahead(start, i, |ring|)
  {
    assert At(ring, start, Ahead(start, i, |ring|)) == ring[i];
  }

  /** Going d places on the way to position i leaves d fewer, unless that is where it is. */
  lemma AheadShrinks(start: nat, d: nat, i: nat, n: nat)
    requires start < n && i < n && 1 <= d <= Ahead(start, i, n)
    ensures Around(start + d, n) == i || Ahead(Around(start + d, n), i, n) == Ahead(start, i, n) - d
  {
  }

  /** The number of tasks a run creates, and the number of dispatches it makes. */
  function Creations(ops: seq<Op>): nat
  {
    if ops == [] then 0 else (if (ops[0].DoCreate? || ops[0].DoFork?) && ops[0].ok then 1 else 0) + Creations(ops[1..])
  }

  function Dispatches(s: State, ops: seq<Op>): nat
    decreases |ops|
  {
    if ops == [] then 0 else (if Dispatched(s, ops[0]) != 0 then 1 else 0) + Dispatches(Step(s, ops[0]), ops[1..])
  }

  /** The task is ready all along and never dispatched. */
  ghost predicate WaitsThroughout(s: State, ops: seq<Op>, pid: nat)
    decreases |ops|
  {
    Ready(s, pid) && (ops != [] ==> Dispatched(s, ops[0]) != pid && WaitsThroughout(Step(s, ops[0]), ops[1..], pid))
  }

  lemma CreateDistance(s: State, parent: nat, pid: nat)
    requires Inv(s) && OnRing(s, pid) && parent < s.nextPid
    ensures OnRing(Created(s, parent), pid) && Distance(Created(s, parent), pid) <= Distance(s, pid) + 1
  {
    var t := Task(s.nextPid, parent, Running, 0, 0);
    assert TaskOk(s.ring[IndexOf(s.ring, pid)], s.nextPid);
    CurrentBelowNext(s);
    InsertIndex(s.ring, t, pid);
    InsertIndex(s.ring, t, s.current);
  }

  /** Reaping another task never takes a waiting task further away. */
  lemma ReapDistance(s: State, i: nat, pid: nat)
    requires Inv(s) && OnRing(s, pid) && OnRing(s, s.current) && i < |s.ring| && s.ring[i].pid != pid
    requires s.ring[i].pid != s.current
    ensures var s' := s.(ring := Remove(s.ring, i)); OnRing(s', pid) && Distance(s', pid) <= Distance(s, pid)
  {
    RemoveIndex(s.ring, i, pid);
    RemoveIndex(s.ring, i, s.current);
    AheadWithout(IndexOf(s.ring, s.current), IndexOf(s.ring, pid), i, |s.ring|);
  }

  function Without(p: nat, i: nat): int { if p < i then p else p - 1 }

  /** Taking out position i brings two other positions no further apart. */
  lemma AheadWithout(start: nat, p: nat, i: nat, n: nat)
    requires start < n && p < n && i < n && start != i && p != i
    ensures 0 <= Without(start, i) < n - 1 && 0 <= Without(p, i) < n - 1
    ensures Ahead(Without(start, i), Without(p, i), n - 1) <= Ahead(start, p, n)
  {
  }

  /** Distance before the dispatch of a step: at most one more, and only when a task is created. */
  lemma BeforeDistance(s: State, op: Op, pid: nat)
    requires Inv(s) && Allowed(s, op) && Ready(s, pid) && Ready(Before(s, op), pid)
    ensures Distance(Before(s, op), pid) <= Distance(s, pid) + Creations([op])
  {
    match op {
      case DoTick => SameRingDistance(s, Ticked(s), pid);
      case DoCreate(ok) => if ok { CreateDistance(s, 0, pid); }
      case DoFork(ok) => if ok { CurrentBelowNext(s); CreateDistance(s, s.current, pid); }
      case DoExit(code) => SameRingDistance(s, Before(s, op), pid);
      case DoSleep(ticks) => SameRingDistance(s, Before(s, op), pid);
      case DoWait =>
        var i := ZombieChild(s.ring, s.current);
        if i < |s.ring| { ChildIsNotCurrent(s, i); IndexIsUnique(s.ring, i); ReapDistance(s, i, pid); }
    }
  }

  lemma SameRingDistance(s: State, s': State, pid: nat)
    requires SameRing(s.ring, s'.ring) && s'.current == s.current && OnRing(s, pid)
    ensures OnRing(s', pid) && Distance(s', pid) == Distance(s, pid)
  {
    SameRingIndex(s.ring, s'.ring, pid);
    SameRingIndex(s.ring, s'.ring, s.current);
  }

  function IsDispatch(s: State, op: Op): nat { if Dispatched(s, op) != 0 then 1 else 0 }

  /** One step of waiting: a dispatch costs at least one unit of distance, a creation adds at most one. */
  lemma StepDistance(s: State, op: Op, pid: nat)
    requires Inv(s) && Allowed(s, op) && Ready(s, pid) && Ready(Step(s, op), pid) && Dispatched(s, op) != pid
    ensures Distance(Step(s, op), pid) + IsDispatch(s, op) <= Distance(s, pid) + Creations([op])
  {
    StepKeeps(s, op);
    assert Step(s, op).ring == Before(s, op).ring;
    BeforeDistance(s, op, pid);
    if Switches(op) { DispatchBringsCloser(Before(s, op), pid); }
  }

  /** Bounded waiting: while a ready task waits, there are fewer dispatches than its distance plus the tasks created. */
  lemma {:induction false} BoundedWaiting(s: State, ops: seq<Op>, r: State, pid: nat)
    requires Inv(s) && Run(s, ops, r) && WaitsThroughout(s, ops, pid)
    ensures Dispatches(s, ops) < Distance(s, pid) + Creations(ops)
    decreases |ops|
  {
    if ops != [] {
      StepKeeps(s, ops[0]);
      StepDistance(s, ops[0], pid);
      BoundedWaiting(Step(s, ops[0]), ops[1..], r, pid);
      assert Creations(ops) == Creations([ops[0]]) + Creations(ops[1..]);
    }
  }

  // ---------------------------------------------------------------- one task through one step

  ghost predicate HasTask(s: State, t: Task) { OnRing(s, t.pid) && s.ring[IndexOf(s.ring, t.pid)] == t }

  /** Nothing happens to a task that is not current, except waking at a tick or being reaped as a zombie. */
  lemma {:induction false} OtherTaskStep(s: State, op: Op, t: Task)
    requires Inv(s) && Allowed(s, op) && HasTask(s, t) && (s.current != t.pid || t.status != Running)
    ensures var s' := Step(s, op);
      HasTask(s', if op == DoTick && t.status == Sleeping && t.wakeup <= s'.tick then t.(status := Running) else t)
      || (op == DoWait && t.status == Zombie && t.parent == s.current && !OnRing(s', t.pid))
  {
    var i := IndexOf(s.ring, t.pid);
    assert Step(s, op).ring == Before(s, op).ring;
    match op {
      case DoTick => SameRingIndex(s.ring, Ticked(s).ring, t.pid);
      case DoCreate(ok) => CreatedKeepsTask(s, 0, t);
      case DoFork(ok) => CurrentBelowNext(s); CreatedKeepsTask(s, s.current, t);
      case DoExit(code) => SameRingIndex(s.ring, Before(s, op).ring, t.pid);
      case DoSleep(ticks) => SameRingIndex(s.ring, Before(s, op).ring, t.pid);
      case DoWait => OtherTaskWait(s, t);
    }
  }

  lemma {:induction false} OtherTaskWait(s: State, t: Task)
    requires Inv(s) && HasTask(s, t)
    ensures var s' := Before(s, DoWait);
      HasTask(s', t) || (t.status == Zombie && t.parent == s.current && !OnRing(s', t.pid))
  {
    var i, k := IndexOf(s.ring, t.pid), ZombieChild(s.ring, s.current);
    if k < |s.ring| {
      if k == i { RemoveAbsent(s.ring, k); } else { IndexIsUnique(s.ring, k); RemoveIndex(s.ring, k, t.pid); }
    }
  }

  lemma {:induction false} CreatedKeepsTask(s: State, parent: nat, t: Task)
    requires Inv(s) && HasTask(s, t) && parent < s.nextPid
    ensures HasTask(Created(s, parent), t)
  {
    assert TaskOk(s.ring[IndexOf(s.ring, t.pid)], s.nextPid);
    InsertIndex(s.ring, Task(s.nextPid, parent, Running, 0, 0), t.pid);
  }

  lemma {:induction false} RemoveAbsent(ring: seq<Task>, k: nat)
    requires DistinctPids(ring) && k < |ring|
    ensures IndexOf(Remove(ring, k), ring[k].pid) == |Remove(ring, k)|
  {
    assert forall j :: 0 <= j < |Remove(ring, k)| ==> Remove(ring, k)[j] == ring[if j < k then j else j + 1];
  }

  // ---------------------------------------------------------------- sleepers

  /** A sleeper becomes running at the first tick that reaches its deadline, and at no other step. */
  lemma {:induction false} SleeperWakesExactly(s: State, op: Op, t: Task)
    requires Inv(s) && Allowed(s, op) && HasTask(s, t) && t.status == Sleeping
    ensures var s' := Step(s, op);
      && OnRing(s', t.pid)
      && (StatusOf(s', t.pid) == Running <==> op == DoTick && t.wakeup <= s'.tick)
      && (StatusOf(s', t.pid) != Running ==> HasTask(s', t))
  {
    OtherTaskStep(s, op, t);
  }

  function Ticks(ops: seq<Op>): nat
  {
    if ops == [] then 0 else (if ops[0] == DoTick then 1 else 0) + Ticks(ops[1..])
  }

  /** Until its deadline, and without tick wraparound, a sleeper sleeps through any run. */
  lemma {:induction false} SleepsUntilDeadline(s: State, ops: seq<Op>, r: State, t: Task)
    requires Inv(s) && Run(s, ops, r) && HasTask(s, t) && t.status == Sleeping
    requires s.tick + Ticks(ops) < t.wakeup
    ensures HasTask(r, t) && r.tick == s.tick + Ticks(ops)
    decreases |ops|
  {
    if ops != [] {
      StepKeeps(s, ops[0]);
      SleeperWakesExactly(s, ops[0], t);
      SleepsUntilDeadline(Step(s, ops[0]), ops[1..], r, t);
    }
  }

  /** A run up to the tick before the deadline leaves the sleeper asleep, and the next tick wakes it. */
  lemma {:induction false} WakesAtDeadline(s: State, ops: seq<Op>, r: State, t: Task)
    requires Inv(s) && Run(s, ops, r) && HasTask(s, t) && t.status == Sleeping
    requires s.tick + Ticks(ops) + 1 == t.wakeup
    ensures HasTask(r, t) && OnRing(Step(r, DoTick), t.pid) && StatusOf(Step(r, DoTick), t.pid) == Running
  {
    SleepsUntilDeadline(s, ops, r, t);
    RunsKeepRing(s, ops, r);
    SleeperWakesExactly(r, DoTick, t);
  }

  /**
   A sleep of two or more ticks is cut short at the very next tick exactly when its deadline wraps and that tick does
   not.
   */
  lemma {:induction false} SleepCutShortIff(s: State, ticks: Tick)
    requires Inv(s) && CurrentRuns(s) && 2 <= ticks
    ensures var s1 := Step(s, DoSleep(ticks));
      && OnRing(s1, s.current) && StatusOf(s1, s.current) == Sleeping
      && OnRing(Step(s1, DoTick), s.current)
      && (StatusOf(Step(s1, DoTick), s.current) == Running <==> s.tick + 1 < WORD <= s.tick + ticks)
  {
    var s1 := Step(s, DoSleep(ticks));
    var t := FallsAsleep(s, ticks);
    SleeperWakesExactly(s1, DoTick, t);
  }

  /** Two ticks before the counter wraps, a sleep of two ticks ends after one. */
  lemma {:induction false} SleepCutShortExample()
    ensures var s := State([Task(1, 0, Running, 0, 0)], 1, 0xFFFF_FFFE, 2);
      var s1 := Step(s, DoSleep(2));
      && Inv(s) && CurrentRuns(s)
      && OnRing(Step(s1, DoTick), 1) && StatusOf(Step(s1, DoTick), 1) == Running
  {
    var s := State([Task(1, 0, Running, 0, 0)], 1, 0xFFFF_FFFE, 2);
    assert IndexOf(s.ring, 1) == 0;
    SleepCutShortIff(s, 2);
  }

  lemma FallsAsleep(s: State, ticks: Tick) returns (t: Task)
    requires Inv(s) && Allowed(s, DoSleep(ticks))
    ensures var s1 := Step(s, DoSleep(ticks));
      && Inv(s1) && HasTask(s1, t) && s1.tick == s.tick
      && t.pid == s.current && t.status == Sleeping && t.wakeup == Plus(s.tick, ticks)
  {
    var b := Before(s, DoSleep(ticks));
    StepKeeps(s, DoSleep(ticks));
    SameRingIndex(s.ring, b.ring, s.current);
    t := b.ring[IndexOf(b.ring, s.current)];
    assert Step(s, DoSleep(ticks)).ring == b.ring;
  }

  // ---------------------------------------------------------------- zombies

  /** A zombie is never dispatched, and leaves the ring only when its parent waits. */
  lemma ZombieStaysDead(s: State, op: Op, t: Task)
    requires Inv(s) && Allowed(s, op) && HasTask(s, t) && t.status == Zombie
    ensures Dispatched(s, op) != t.pid
    ensures var s' := Step(s, op);
      HasTask(s', t) || (op == DoWait && t.parent == s.current && !OnRing(s', t.pid))
  {
    OtherTaskStep(s, op, t);
    StepKeeps(s, op);
    assert TaskOk(s.ring[IndexOf(s.ring, t.pid)], s.nextPid);
    assert Step(s, op).ring == Before(s, op).ring;
    if Switches(op) && Pick(Before(s, op)) != 0 { PickIsListed(Before(s, op)); }
  }

  /** A pid that was given out and is no longer on the ring. */
  ghost predicate Gone(s: State, pid: nat) { 0 < pid < s.nextPid && !OnRing(s, pid) }

  /** Pids are not given out again, so who is gone stays gone. */
  lemma {:induction false} GoneStays(s: State, op: Op, pid: nat)
    requires Inv(s) && Allowed(s, op) && Gone(s, pid)
    ensures Gone(Step(s, op), pid) && Dispatched(s, op) != pid
  {
    StepKeeps(s, op);
    assert Step(s, op).ring == Before(s, op).ring;
    GoneBefore(s, op, pid);
    if Switches(op) && Pick(Before(s, op)) != 0 { PickIsListed(Before(s, op)); }
  }

  lemma {:induction false} GoneBefore(s: State, op: Op, pid: nat)
    requires Inv(s) && Allowed(s, op) && Gone(s, pid)
    ensures Gone(Before(s, op), pid)
  {
    match op {
      case DoTick => SameRingIndex(s.ring, Ticked(s).ring, pid);
      case DoCreate(ok) => if ok { InsertIndex(s.ring, Task(s.nextPid, 0, Running, 0, 0), pid); }
      case DoFork(ok) => if ok { InsertIndex(s.ring, Task(s.nextPid, s.current, Running, 0, 0), pid); }
      case DoExit(code) => SameRingIndex(s.ring, Before(s, op).ring, pid);
      case DoSleep(ticks) => SameRingIndex(s.ring, Before(s, op).ring, pid);
      case DoWait =>
        var k := ZombieChild(s.ring, s.current);
        if k < |s.ring| { RemoveIndex(s.ring, k, pid); }
    }
  }

  ghost predicate NeverDispatched(s: State, ops: seq<Op>, pid: nat)
    decreases |ops|
  {
    ops != [] ==> Dispatched(s, ops[0]) != pid && NeverDispatched(Step(s, ops[0]), ops[1..], pid)
  }

  lemma {:induction false} GoneForGood(s: State, ops: seq<Op>, r: State, pid: nat)
    requires Inv(s) && Run(s, ops, r) && Gone(s, pid)
    ensures NeverDispatched(s, ops, pid) && Gone(r, pid)
    decreases |ops|
  {
    if ops != [] {
      StepKeeps(s, ops[0]);
      GoneStays(s, ops[0], pid);
      GoneForGood(Step(s, ops[0]), ops[1..], r, pid);
    }
  }

  /**
   In any run a zombie is never dispatched or revived: it stays as it is until it is reaped, and then its pid is gone.
   */
  lemma {:induction false} ZombieNeverRuns(s: State, ops: seq<Op>, r: State, t: Task)
    requires Inv(s) && Run(s, ops, r) && HasTask(s, t) && t.status == Zombie
    ensures NeverDispatched(s, ops, t.pid) && (HasTask(r, t) || Gone(r, t.pid))
    decreases |ops|
  {
    if ops != [] {
      StepKeeps(s, ops[0]);
      ZombieStaysDead(s, ops[0], t);
      if HasTask(Step(s, ops[0]), t) {
        ZombieNeverRuns(Step(s, ops[0]), ops[1..], r, t);
      } else {
        ReapedIsGone(s, ops[0], t);
        GoneForGood(Step(s, ops[0]), ops[1..], r, t.pid);
      }
    }
  }

  lemma {:induction false} ReapedIsGone(s: State, op: Op, t: Task)
    requires Inv(s) && HasTask(s, t) && op == DoWait && !OnRing(Step(s, op), t.pid)
    ensures Gone(Step(s, op), t.pid)
  {
    assert TaskOk(s.ring[IndexOf(s.ring, t.pid)], s.nextPid);
  }

  // ---------------------------------------------------------------- exit codes

  datatype Reap = Reap(waiter: nat, child: nat, code: int)

  /** A state with what has happened so far: exit codes given, who forked whom, and what waits returned. */
  datatype History = History(s: State, exits: map<nat, int>, parents: map<nat, nat>, reaps: seq<Reap>)

  function Record(h: History, op: Op): History
  {
    var s' := Step(h.s, op);
    match op
    case DoExit(code) => h.(s := s', exits := h.exits[h.s.current := code])
    case DoCreate(ok) => if ok then h.(s := s', parents := h.parents[h.s.nextPid := 0]) else h
    case DoFork(ok) => if ok then h.(s := s', parents := h.parents[h.s.nextPid := h.s.current]) else h
    case DoWait =>
      var i := ZombieChild(h.s.ring, h.s.current);
      if i < |h.s.ring| then h.(s := s', reaps := h.reaps + [Reap(h.s.current, h.s.ring[i].pid, h.s.ring[i].code)])
      else h
    case _ => h.(s := s')
  }

  ghost predicate Recorded(h: History, ops: seq<Op>, r: History)
    decreases |ops|
  {
    if ops == [] then r == h else Allowed(h.s, ops[0]) && Recorded(Record(h, ops[0]), ops[1..], r)
  }

  ghost predicate TaskRecorded(h: History, t: Task)
  {
    && t.pid in h.parents && h.parents[t.pid] == t.parent
    && (t.status == Zombie <==> t.pid in h.exits)
    && (t.status == Zombie ==> h.exits[t.pid] == t.code)
  }

  /** The code a wait returned is the one its child exited with, and the waiter forked that child. */
  ghost predicate ReapRecorded(h: History, p: Reap)
  {
    && p.child in h.exits && h.exits[p.child] == p.code
    && p.child in h.parents && h.parents[p.child] == p.waiter
    && !OnRing(h.s, p.child)
  }

  ghost predicate HistoryOk(h: History)
  {
    && Inv(h.s)
    && (forall i :: 0 <= i < |h.s.ring| ==> TaskRecorded(h, h.s.ring[i]))
    && (forall pid :: pid in h.exits || pid in h.parents ==> pid < h.s.nextPid)
    && (forall k :: 0 <= k < |h.reaps| ==> ReapRecorded(h, h.reaps[k]))
    && (forall k, l :: 0 <= k < l < |h.reaps| ==> h.reaps[k].child != h.reaps[l].child)
  }

  /** A task that has exited never runs again, so it exits at most once. */
  lemma {:induction false} ExitsOnce(h: History)
    requires HistoryOk(h) && CurrentRuns(h.s)
    ensures h.s.current !in h.exits
  {
    assert TaskRecorded(h, h.s.ring[IndexOf(h.s.ring, h.s.current)]);
  }

  lemma CreationRecorded(h: History, parent: nat, op: Op)
    requires HistoryOk(h) && parent < h.s.nextPid && Step(h.s, op) == Created(h.s, parent)
    ensures HistoryOk(h.(s := Created(h.s, parent), parents := h.parents[h.s.nextPid := parent]))
  {
    var h' := h.(s := Created(h.s, parent), parents := h.parents[h.s.nextPid := parent]);
    CreateKeeps(h.s, parent);
    forall i | 0 <= i < |h'.s.ring| ensures TaskRecorded(h', h'.s.ring[i]) {
      if i == 0 && h.s.ring != [] { assert TaskRecorded(h, h.s.ring[0]) && TaskOk(h.s.ring[0], h.s.nextPid); }
      if i > 1 {
        assert h'.s.ring[i] == h.s.ring[i - 1] && TaskRecorded(h, h.s.ring[i - 1]);
        assert TaskOk(h.s.ring[i - 1], h.s.nextPid);
      }
    }
    forall k | 0 <= k < |h.reaps| ensures ReapRecorded(h', h.reaps[k]) {
      assert ReapRecorded(h, h.reaps[k]);
      InsertIndex(h.s.ring, Task(h.s.nextPid, parent, Running, 0, 0), h.reaps[k].child);
    }
  }

  /** A task keeps its record when the step changes neither its exit nor whether it is a zombie. */
  lemma {:induction false} TasksStayRecorded(h: History, h': History)
    requires HistoryOk(h) && h'.parents == h.parents && SameRing(h.s.ring, h'.s.ring) && h'.exits == h.exits
    requires forall i :: 0 <= i < |h.s.ring| ==>
      (h'.s.ring[i].status == Zombie <==> h.s.ring[i].status == Zombie) && h'.s.ring[i].code == h.s.ring[i].code
    ensures forall i :: 0 <= i < |h'.s.ring| ==> TaskRecorded(h', h'.s.ring[i])
  {
    forall i | 0 <= i < |h'.s.ring| ensures TaskRecorded(h', h'.s.ring[i]) { assert TaskRecorded(h, h.s.ring[i]); }
  }

  /** A step that neither creates, exits nor reaps keeps the record in order. */
  lemma {:induction false} QuietRecorded(h: History, h': History)
    requires HistoryOk(h) && Inv(h'.s) && h' == h.(s := h'.s) && h'.s.nextPid == h.s.nextPid
    requires SameRing(h.s.ring, h'.s.ring)
    requires forall i :: 0 <= i < |h.s.ring| ==>
      (h'.s.ring[i].status == Zombie <==> h.s.ring[i].status == Zombie) && h'.s.ring[i].code == h.s.ring[i].code
    ensures HistoryOk(h')
  {
    TasksStayRecorded(h, h');
    ReapsStay(h, h');
  }

  lemma {:induction false} TickRecorded(h: History)
    requires HistoryOk(h)
    ensures HistoryOk(Record(h, DoTick))
  {
    StepKeeps(h.s, DoTick);
    DispatchKeepsRing(Ticked(h.s));
    QuietRecorded(h, Record(h, DoTick));
  }

  lemma {:induction false} SleepRecorded(h: History, ticks: Tick)
    requires HistoryOk(h) && Allowed(h.s, DoSleep(ticks))
    ensures HistoryOk(Record(h, DoSleep(ticks)))
  {
    StepKeeps(h.s, DoSleep(ticks));
    DispatchKeepsRing(Before(h.s, DoSleep(ticks)));
    QuietRecorded(h, Record(h, DoSleep(ticks)));
  }

  lemma {:induction false} DispatchKeepsRing(s: State)
    ensures Dispatch(s).ring == s.ring && Dispatch(s).nextPid == s.nextPid && Dispatch(s).tick == s.tick
  {
  }

  lemma {:induction false} ExitRecorded(h: History, code: int)
    requires HistoryOk(h) && Allowed(h.s, DoExit(code))
    ensures HistoryOk(Record(h, DoExit(code)))
  {
    var h' := Record(h, DoExit(code));
    StepKeeps(h.s, DoExit(code));
    DispatchKeepsRing(Before(h.s, DoExit(code)));
    ExitsOnce(h);
    CurrentBelowNext(h.s);
    ExitingTaskRecorded(h, code, Before(h.s, DoExit(code)).ring, h');
    ReapsStay(h, h');
  }

  /** The exiting task becomes a zombie with its code on record, and no other task changes. */
  lemma {:induction false} ExitingTaskRecorded(h: History, code: int, ring: seq<Task>, h': History)
    requires HistoryOk(h) && CurrentRuns(h.s) && ring == Replace(h.s, CurrentTask(h.s).(status := Zombie, code := code))
    requires h'.parents == h.parents && h'.exits == h.exits[h.s.current := code]
    ensures forall i :: 0 <= i < |ring| ==> TaskRecorded(h', ring[i])
  {
    forall i | 0 <= i < |ring| ensures TaskRecorded(h', ring[i]) {
      assert TaskRecorded(h, h.s.ring[i]);
      IndexIsUnique(h.s.ring, i);
    }
  }

  /** Reaps stay on record while the ring holds the same tasks and no exit of theirs is rewritten. */
  lemma {:induction false} ReapsStay(h: History, h': History)
    requires HistoryOk(h) && h'.reaps == h.reaps && h'.parents == h.parents && SameRing(h.s.ring, h'.s.ring)
    requires forall pid :: pid in h.exits ==> pid in h'.exits && h'.exits[pid] == h.exits[pid]
    ensures forall k :: 0 <= k < |h.reaps| ==> ReapRecorded(h', h.reaps[k])
  {
    forall k | 0 <= k < |h.reaps| ensures ReapRecorded(h', h.reaps[k]) {
      assert ReapRecorded(h, h.reaps[k]);
      SameRingIndex(h.s.ring, h'.s.ring, h.reaps[k].child);
    }
  }

  lemma WaitRecorded(h: History)
    requires HistoryOk(h) && Allowed(h.s, DoWait)
    ensures HistoryOk(Record(h, DoWait))
  {
    var i := ZombieChild(h.s.ring, h.s.current);
    if i < |h.s.ring| {
      var h' := Record(h, DoWait);
      StepKeeps(h.s, DoWait);
      var ring := Remove(h.s.ring, i);
      assert TaskRecorded(h, h.s.ring[i]);
      RemoveAbsent(h.s.ring, i);
      IndexIsUnique(h.s.ring, i);
      forall j | 0 <= j < |ring| ensures TaskRecorded(h', ring[j]) {
        assert ring[j] == h.s.ring[if j < i then j else j + 1] && TaskRecorded(h, h.s.ring[if j < i then j else j + 1]);
      }
      forall k | 0 <= k < |h.reaps| ensures ReapRecorded(h', h.reaps[k]) && h.reaps[k].child != h.s.ring[i].pid {
        assert ReapRecorded(h, h.reaps[k]);
        RemoveIndex(h.s.ring, i, h.reaps[k].child);
      }
      assert ReapRecorded(h', h'.reaps[|h.reaps|]);
    }
  }

  /** In any run, each exit code is delivered at most once, to the task that forked the child. */
  lemma {:induction false} ExitCodesDeliveredOnce(h: History, ops: seq<Op>, r: History)
    requires HistoryOk(h) && Recorded(h, ops, r)
    ensures HistoryOk(r)
    decreases |ops|
  {
    if ops != [] {
      match ops[0] {
        case DoCreate(ok) => if ok { CreationRecorded(h, 0, ops[0]); }
        case DoFork(ok) => if ok { CurrentBelowNext(h.s); CreationRecorded(h, h.s.current, ops[0]); }
        case DoWait => WaitRecorded(h);
        case DoExit(code) => ExitRecorded(h, code);
        case DoTick => TickRecorded(h);
        case DoSleep(ticks) => SleepRecorded(h, ticks);
      }
      ExitCodesDeliveredOnce(Record(h, ops[0]), ops[1..], r);
    }
  }

  /** From boot, the history of every run is in order. */
  lemma {:induction false} EveryRunIsRecorded(ops: seq<Op>, r: History)
    requires Recorded(History(Boot, map[], map[], []), ops, r)
    ensures HistoryOk(r)
  {
    assert HistoryOk(History(Boot, map[], map[], []));
    ExitCodesDeliveredOnce(History(Boot, map[], map[], []), ops, r);
  }
}

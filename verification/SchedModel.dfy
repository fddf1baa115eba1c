/**
 The scheduler as a transition system: a ring of tasks, the one that runs, the tick counter, and
 the steps of the kernel - timer tick, task creation and fork, exit, sleep, wait.
 Tasks are named by pid, and pid 0 stands for the null pointer.
 */
module SchedModel {
  import opened Sizes
  import opened Folding

  /** Tick counts and deadlines are 32-bit. */
  type Tick = n: nat | n < WORD

  function Plus(a: Tick, b: Tick): Tick { if a + b < WORD then a + b else a + b - WORD }

  datatype Status = Running | Zombie | Sleeping

  datatype Task = Task(pid: nat, parent: nat, status: Status, code: int, wakeup: Tick)

  /** ring[0] is task_list, and each task's next is the one after it, cyclically. */
  datatype State = State(ring: seq<Task>, current: nat, tick: Tick, nextPid: nat)

  // ---------------------------------------------------------------- the ring

  /** Position of a pid in the ring, or its length when absent. */
  function IndexOf(ring: seq<Task>, pid: nat): (i: nat)
    ensures i <= |ring|
    ensures i < |ring| ==> ring[i].pid == pid
    ensures i == |ring| ==> forall j :: 0 <= j < |ring| ==> ring[j].pid != pid
  {
    if ring == [] || ring[0].pid == pid then 0 else 1 + IndexOf(ring[1..], pid)
  }

  /** Cyclic position for i below 2n. */
  function Around(i: nat, n: nat): (r: nat)
    requires n > 0 && i < 2 * n
    ensures r < n
  {
    if i < n then i else i - n
  }

  ghost predicate DistinctPids(ring: seq<Task>)
  {
    forall i, j :: 0 <= i < j < |ring| ==> ring[i].pid != ring[j].pid
  }

  ghost predicate TaskOk(t: Task, nextPid: nat) { 0 < t.pid < nextPid && t.parent < t.pid }

  ghost predicate Inv(s: State)
  {
    && DistinctPids(s.ring)
    && (forall i :: 0 <= i < |s.ring| ==> TaskOk(s.ring[i], s.nextPid))
    && (s.current == 0 || IndexOf(s.ring, s.current) < |s.ring|)
    && s.nextPid > 0
  }

  lemma {:induction false} IndexIsUnique(ring: seq<Task>, i: nat)
    requires DistinctPids(ring) && i < |ring|
    ensures IndexOf(ring, ring[i].pid) == i
  {
  }

  /** The invariant, folded up so that a proof that does not need its parts does not see them. */
  ghost predicate Sound(s: State) { forall z: int {:trigger Unfold(z)} :: Unfold(z) ==> Inv(s) }

  lemma SoundIs(s: State)
    ensures Sound(s) <==> Inv(s)
  {
    assert Unfold(0);
  }

  // ---------------------------------------------------------------- steps

  /** The task at distance d from position start. */
  function At(ring: seq<Task>, start: nat, d: nat): Task
    requires start < |ring| && d <= |ring|
  {
    ring[Around(start + d, |ring|)]
  }

  /** Distance to the first running task at distance k or more; n + 1 when there is none. */
  function FirstRunning(ring: seq<Task>, start: nat, k: nat): (d: nat)
    requires start < |ring| && 1 <= k <= |ring| + 1
    ensures k <= d <= |ring| + 1
    ensures d <= |ring| ==> At(ring, start, d).status == Running
    ensures forall e :: k <= e < d ==> At(ring, start, e).status != Running
    decreases |ring| + 1 - k
  {
    if k > |ring| || At(ring, start, k).status == Running then k else FirstRunning(ring, start, k + 1)
  }

  function Start(s: State): (i: nat)
    requires s.ring != []
    ensures i < |s.ring|
  {
    var i := IndexOf(s.ring, s.current);
    if i < |s.ring| then i else 0
  }

  /** pick_next_task: the pid to run, or 0. */
  function Pick(s: State): nat
  {
    if s.ring == [] then 0
    else
      var d := FirstRunning(s.ring, Start(s), 1);
      if d > |s.ring| then 0 else At(s.ring, Start(s), d).pid
  }

  /** The dispatch that ends a tick, an exit or a sleep: nothing to run leaves current alone. */
  function Dispatch(s: State): State
  {
    if Pick(s) == 0 then s else s.(current := Pick(s))
  }

  function Wake(t: Task, tick: Tick): Task
  {
    if t.status == Sleeping && t.wakeup <= tick then t.(status := Running) else t
  }

  function WakeAll(ring: seq<Task>, tick: Tick): (r: seq<Task>)
    ensures |r| == |ring| && forall i :: 0 <= i < |ring| ==> r[i] == Wake(ring[i], tick)
  {
    seq(|ring|, i requires 0 <= i < |ring| => Wake(ring[i], tick))
  }

  function Ticked(s: State): State
  {
    var tick := Plus(s.tick, 1);
    s.(tick := tick, ring := WakeAll(s.ring, tick))
  }

  /** A new task goes right behind task_list. */
  function Insert(ring: seq<Task>, t: Task): seq<Task>
  {
    if ring == [] then [t] else [ring[0], t] + ring[1..]
  }

  function Created(s: State, parent: nat): State
  {
    s.(ring := Insert(s.ring, Task(s.nextPid, parent, Running, 0, 0)), nextPid := s.nextPid + 1)
  }

  /** The first zombie child of the running task, from task_list on; the ring length when none. */
  function ZombieChild(ring: seq<Task>, parent: nat): (i: nat)
    ensures i <= |ring|
    ensures i < |ring| ==> ring[i].parent == parent && ring[i].status == Zombie
    ensures forall j :: 0 <= j < i ==> !(ring[j].parent == parent && ring[j].status == Zombie)
  {
    if ring == [] then 0
    else if ring[0].parent == parent && ring[0].status == Zombie then 0
    else 1 + ZombieChild(ring[1..], parent)
  }

  function Remove(ring: seq<Task>, i: nat): seq<Task>
    requires i < |ring|
  {
    ring[..i] + ring[i + 1..]
  }

  datatype Op = DoTick | DoCreate(ok: bool) | DoFork(ok: bool) | DoExit(code: int) | DoSleep(ticks: Tick) | DoWait

  ghost predicate CurrentRuns(s: State)
  {
    var i := IndexOf(s.ring, s.current);
    i < |s.ring| && s.ring[i].status == Running
  }

  /** System calls are issued by a running current task; ticks and kernel task creation at any time. */
  ghost predicate Allowed(s: State, op: Op)
  {
    match op
    case DoTick => true
    case DoCreate(_) => true
    case DoFork(_) => CurrentRuns(s)
    case DoExit(_) => CurrentRuns(s)
    case DoSleep(_) => CurrentRuns(s)
    case DoWait => CurrentRuns(s)
  }

  function CurrentTask(s: State): Task
  {
    var i := IndexOf(s.ring, s.current);
    if i < |s.ring| then s.ring[i] else Task(0, 0, Zombie, 0, 0)
  }

  /** The ring with the current task changed in place. */
  function Replace(s: State, t: Task): seq<Task>
  {
    var i := IndexOf(s.ring, s.current);
    if i < |s.ring| then s.ring[i := t] else s.ring
  }

  /** Ticks, exits and sleeps end in a dispatch. */
  predicate Switches(op: Op) { op.DoTick? || op.DoExit? || op.DoSleep? }

  /** What a step does before its dispatch. */
  function Before(s: State, op: Op): State
  {
    match op
    case DoTick => Ticked(s)
    case DoCreate(ok) => if ok then Created(s, 0) else s
    case DoFork(ok) => if ok then Created(s, s.current) else s
    case DoExit(code) => s.(ring := Replace(s, CurrentTask(s).(status := Zombie, code := code)))
    case DoSleep(ticks) => s.(ring := Replace(s, CurrentTask(s).(status := Sleeping, wakeup := Plus(s.tick, ticks))))
    case DoWait =>
      var i := ZombieChild(s.ring, s.current);
      if i < |s.ring| then s.(ring := Remove(s.ring, i)) else s
  }

  function Step(s: State, op: Op): State
  {
    if Switches(op) then Dispatch(Before(s, op)) else Before(s, op)
  }

  /** The task a step dispatches, or 0. */
  function Dispatched(s: State, op: Op): nat
  {
    if Switches(op) then Pick(Before(s, op)) else 0
  }

  // ---------------------------------------------------------------- invariant

  /** Same tasks in the same order, whatever their status. */
  ghost predicate SameRing(ring: seq<Task>, ring': seq<Task>)
  {
    |ring'| == |ring| && forall i :: 0 <= i < |ring| ==>
      ring'[i].pid == ring[i].pid && ring'[i].parent == ring[i].parent
  }

  lemma {:induction false} SameRingIndex(ring: seq<Task>, ring': seq<Task>, pid: nat)
    requires SameRing(ring, ring')
    ensures IndexOf(ring', pid) == IndexOf(ring, pid)
  {
    if ring != [] { SameRingIndex(ring[1..], ring'[1..], pid); }
  }

  lemma {:induction false} PickIsListed(s: State)
    requires Inv(s) && Pick(s) != 0
    ensures IndexOf(s.ring, Pick(s)) < |s.ring| && s.ring[IndexOf(s.ring, Pick(s))].status == Running
    ensures IndexOf(s.ring, Pick(s)) == Around(Start(s) + FirstRunning(s.ring, Start(s), 1), |s.ring|)
  {
    IndexIsUnique(s.ring, Around(Start(s) + FirstRunning(s.ring, Start(s), 1), |s.ring|));
  }

  lemma {:induction false} DispatchKeeps(s: State)
    requires Inv(s)
    ensures Inv(Dispatch(s))
  {
    if Pick(s) != 0 { PickIsListed(s); }
  }

  lemma {:induction false} SameRingKeeps(s: State, s': State)
    requires Inv(s) && SameRing(s.ring, s'.ring) && s'.current == s.current && s'.nextPid == s.nextPid
    ensures Inv(s')
  {
    SameRingIndex(s.ring, s'.ring, s.current);
    forall i | 0 <= i < |s.ring| ensures TaskOk(s'.ring[i], s'.nextPid) { assert TaskOk(s.ring[i], s.nextPid); }
  }

  lemma {:induction false} InsertIndex(ring: seq<Task>, t: Task, pid: nat)
    requires pid != t.pid
    ensures IndexOf(Insert(ring, t), pid) == if IndexOf(ring, pid) == 0 && ring != [] then 0 else IndexOf(ring, pid) + 1
  {
    if ring != [] {
      assert Insert(ring, t)[1..] == [t] + ring[1..];
      assert ([t] + ring[1..])[1..] == ring[1..];
    }
  }

  lemma {:induction false} CreateKeeps(s: State, parent: nat)
    requires Inv(s) && parent < s.nextPid
    ensures Inv(Created(s, parent))
  {
    var s' := Created(s, parent);
    forall i | 0 <= i < |s'.ring| ensures TaskOk(s'.ring[i], s'.nextPid) {
      assert i == 0 && s.ring != [] ==> TaskOk(s.ring[0], s.nextPid);
      assert i > 1 ==> s'.ring[i] == s.ring[i - 1] && TaskOk(s.ring[i - 1], s.nextPid);
    }
    forall i, j | 0 <= i < j < |s'.ring| ensures s'.ring[i].pid != s'.ring[j].pid {
      assert j > 1 ==> s'.ring[j] == s.ring[j - 1] && TaskOk(s.ring[j - 1], s.nextPid);
      assert i > 1 ==> s'.ring[i] == s.ring[i - 1];
      assert s.ring != [] ==> TaskOk(s.ring[0], s.nextPid);
    }
    if s.current != 0 {
      assert TaskOk(s.ring[IndexOf(s.ring, s.current)], s.nextPid);
      InsertIndex(s.ring, Task(s.nextPid, parent, Running, 0, 0), s.current);
    }
  }

  lemma {:induction false} RemoveIndex(ring: seq<Task>, i: nat, pid: nat)
    requires i < |ring| && ring[i].pid != pid
    ensures IndexOf(Remove(ring, i), pid) ==
      if IndexOf(ring, pid) < i then IndexOf(ring, pid) else IndexOf(ring, pid) - 1
  {
    if i == 0 {
      assert Remove(ring, i) == ring[1..];
    } else {
      assert Remove(ring, i)[1..] == Remove(ring[1..], i - 1);
      RemoveIndex(ring[1..], i - 1, pid);
    }
  }

  lemma {:induction false} RemoveKeeps(s: State, i: nat)
    requires Inv(s) && i < |s.ring| && s.ring[i].pid != s.current
    ensures Inv(s.(ring := Remove(s.ring, i)))
  {
    RemoveIndex(s.ring, i, s.current);
    var ring := Remove(s.ring, i);
    forall j | 0 <= j < |ring| ensures TaskOk(ring[j], s.nextPid) {
      assert TaskOk(s.ring[if j < i then j else j + 1], s.nextPid);
    }
  }

  /** A task is never its own parent, so wait never reaps the task that runs. */
  lemma ChildIsNotCurrent(s: State, i: nat)
    requires Inv(s) && i < |s.ring| && s.ring[i].parent == s.current
    ensures s.ring[i].pid != s.current
  {
    assert TaskOk(s.ring[i], s.nextPid);
  }

  lemma CurrentBelowNext(s: State)
    requires Inv(s)
    ensures s.current < s.nextPid
  {
    if s.current != 0 { assert TaskOk(s.ring[IndexOf(s.ring, s.current)], s.nextPid); }
  }

  lemma StepKeeps(s: State, op: Op)
    requires Inv(s) && Allowed(s, op)
    ensures Inv(Before(s, op)) && Inv(Step(s, op))
  {
    match op {
      case DoTick => SameRingKeeps(s, Ticked(s));
      case DoCreate(ok) => if ok { CreateKeeps(s, 0); }
      case DoFork(ok) => if ok { CurrentBelowNext(s); CreateKeeps(s, s.current); }
      case DoExit(code) => SameRingKeeps(s, Before(s, op));
      case DoSleep(ticks) => SameRingKeeps(s, Before(s, op));
      case DoWait =>
        var i := ZombieChild(s.ring, s.current);
        if i < |s.ring| { ChildIsNotCurrent(s, i); RemoveKeeps(s, i); }
    }
    DispatchKeeps(Before(s, op));
  }
}
